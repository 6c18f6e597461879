/**
  Capacitated assignment with spreading: every a is given one of its options b, no b takes more
  than its maximum, and the capacities in force are raised one level at a time so that the largest
  group stays as small as possible.
 */
module Assign {
  import opened Sets

  const UNASSIGNED := -1

  // ----- what is computed

  /** The a's that f sends to b. */
  ghost function Group(f: seq<int>, b: int): (s: set<nat>)
    ensures forall a :: a in s <==> 0 <= a < |f| && f[a] == b
  {
    set a: nat | a < |f| && f[a] == b
  }

  ghost predicate Assignment(options: seq<seq<nat>>, cap: seq<nat>, f: seq<int>) {
    && |f| == |options|
    && (forall a :: 0 <= a < |f| ==> f[a] in options[a])
    && (forall b :: 0 <= b < |cap| ==> |Group(f, b)| <= cap[b])
  }

  /** The size of the largest of the first n groups. */
  ghost function Largest(f: seq<int>, n: nat): (m: nat)
    ensures forall b :: 0 <= b < n ==> |Group(f, b)| <= m
    ensures m == 0 || exists b :: 0 <= b < n && |Group(f, b)| == m
  {
    if n == 0 then 0
    else
      var m := Largest(f, n - 1);
      if |Group(f, n - 1)| > m then |Group(f, n - 1)| else m
  }

  /** The capacities at a water level. */
  function Caps(bMax: seq<nat>, level: nat): (c: seq<nat>)
    ensures |c| == |bMax|
    ensures forall b :: 0 <= b < |c| ==> c[b] == if bMax[b] < level then bMax[b] else level
  {
    seq(|bMax|, b requires 0 <= b < |bMax| => if bMax[b] < level then bMax[b] else level)
  }

  /** How many are placed when every group counts with at most `level` of its members. */
  ghost function Filled(f: seq<int>, n: nat, level: nat): nat {
    if n == 0 then 0
    else
      var size := |Group(f, n - 1)|;
      Filled(f, n - 1, level) + if size < level then size else level
  }

  /** f spreads as well as any valid assignment, at every level. */
  ghost predicate SpreadsBest(options: seq<seq<nat>>, bMax: seq<nat>, f: seq<int>) {
    forall f', level: nat :: Assignment(options, bMax, f') ==> Filled(f', |bMax|, level) <= Filled(f, |bMax|, level)
  }

  ghost predicate NoAssignment(options: seq<seq<nat>>, cap: seq<nat>) {
    forall f :: !Assignment(options, cap, f)
  }

  ghost predicate InRange(options: seq<seq<nat>>, n: nat) {
    forall a, b :: 0 <= a < |options| && b in options[a] ==> b < n
  }

  // ----- why there may be no assignment

  /** The joint capacity of those of the first k b's that are in n. */
  ghost function Total(cap: seq<nat>, n: set<nat>, k: nat): nat
    requires k <= |cap|
  {
    if k == 0 then 0 else Total(cap, n, k - 1) + if k - 1 in n then cap[k - 1] else 0
  }

  /** The a's of s have all their options in n, and n has no room for them. */
  ghost predicate Overfull(options: seq<seq<nat>>, cap: seq<nat>, s: set<nat>, n: set<nat>) {
    && (forall a :: a in s ==> a < |options| && forall b :: b in options[a] ==> b in n && b < |cap|)
    && Total(cap, n, |cap|) < |s|
  }

  /** The a's of s that f sends to one of the first k b's of n. */
  ghost function Sent(f: seq<int>, s: set<nat>, n: set<nat>, k: nat): set<nat> {
    set a | a in s && a < |f| && 0 <= f[a] < k && f[a] in n
  }

  lemma {:induction false} SentFits(cap: seq<nat>, f: seq<int>, s: set<nat>, n: set<nat>, k: nat)
    requires k <= |cap| && forall b :: 0 <= b < |cap| ==> |Group(f, b)| <= cap[b]
    ensures |Sent(f, s, n, k)| <= Total(cap, n, k)
  {
    if k == 0 {
      assert Sent(f, s, n, 0) == {};
    } else {
      SentFits(cap, f, s, n, k - 1);
      if k - 1 in n {
        var before, last := Sent(f, s, n, k - 1), Group(f, k - 1);
        SubsetSize(Sent(f, s, n, k), before + last);
        assert |before + last| <= |before| + |last|;
      } else {
        assert Sent(f, s, n, k) == Sent(f, s, n, k - 1);
      }
    }
  }

  // ----- partial assignments

  /** Some of the a's are given one of their options, within the capacities. */
  ghost predicate PartOf(options: seq<seq<nat>>, cap: seq<nat>, h: seq<int>) {
    && |h| == |options|
    && (forall a :: 0 <= a < |h| ==> h[a] == UNASSIGNED || h[a] in options[a])
    && (forall b :: 0 <= b < |cap| ==> |Group(h, b)| <= cap[b])
  }

  /** The a's given one of the first k b's. */
  ghost function Given(h: seq<int>, k: int): (s: set<nat>)
    ensures forall a :: a in s <==> 0 <= a < |h| && 0 <= h[a] < k
  {
    set a: nat | a < |h| && 0 <= h[a] < k
  }

  lemma {:induction false} GivenIsFilled(h: seq<int>, k: nat, level: nat)
    requires forall b :: 0 <= b < k ==> |Group(h, b)| <= level
    ensures |Given(h, k)| == Filled(h, k, level)
  {
    if k == 0 {
      assert Given(h, 0) == {};
    } else {
      GivenIsFilled(h, k - 1, level);
      assert Given(h, k) == Given(h, k - 1) + Group(h, k - 1);
      assert Given(h, k - 1) !! Group(h, k - 1);
    }
  }

  /** No partial assignment places more a's than aToB does. */
  ghost predicate PlacesMost(options: seq<seq<nat>>, cap: seq<nat>, aToB: seq<int>) {
    forall h :: PartOf(options, cap, h) ==> |Given(h, |cap|)| <= |Given(aToB, |cap|)|
  }

  /** The a's of s have all their options in n, and n is full, with a's of s only. */
  ghost predicate Trapped(options: seq<seq<nat>>, cap: seq<nat>, aToB: seq<int>, s: set<nat>, n: set<nat>) {
    && (forall a :: a in s ==> a < |options| && forall b :: b in options[a] ==> b in n && b < |cap|)
    && (forall b :: b in n && b < |cap| ==> |Group(aToB, b)| >= cap[b] && Group(aToB, b) <= s)
  }

  lemma TrapsUnite(
    options: seq<seq<nat>>, cap: seq<nat>, aToB: seq<int>, s: set<nat>, n: set<nat>, s': set<nat>, n': set<nat>)
    requires Trapped(options, cap, aToB, s, n) && Trapped(options, cap, aToB, s', n')
    ensures Trapped(options, cap, aToB, s + s', n + n')
  {
  }

  /** Whoever joins a b with room is outside every trap and leaves it as it is. */
  lemma MoveKeepsTrap(
    options: seq<seq<nat>>, cap: seq<nat>, aToB: seq<int>, s: set<nat>, n: set<nat>, a: nat, b: nat)
    requires Trapped(options, cap, aToB, s, n)
    requires a < |aToB| == |options| && b in options[a] && b < |cap| && |Group(aToB, b)| < cap[b]
    ensures Trapped(options, cap, aToB[a := b], s, n)
  {
    assert b !in n && a !in s;
    var f := aToB[a := b];
    forall c | c in n && c < |cap| ensures Group(f, c) == Group(aToB, c) {
      assert a !in Group(aToB, c);
    }
  }

  /** With everyone not placed in a trap, no partial assignment places more. */
  lemma TrappedPlacesMost(options: seq<seq<nat>>, cap: seq<nat>, aToB: seq<int>, s: set<nat>, n: set<nat>)
    requires Trapped(options, cap, aToB, s, n) && PartOf(options, cap, aToB) && InRange(options, |cap|)
    requires forall a :: 0 <= a < |aToB| && aToB[a] == UNASSIGNED ==> a in s
    ensures PlacesMost(options, cap, aToB)
  {
    var k := |cap|;
    forall h | PartOf(options, cap, h) ensures |Given(h, k)| <= |Given(aToB, k)| {
      var outside := Below(|options|) - s;
      SentFits(cap, h, s, n, k);
      SentFills(cap, aToB, s, n, k);
      SubsetSize(Given(h, k), outside + Sent(h, s, n, k));
      assert |outside + Sent(h, s, n, k)| <= |outside| + |Sent(h, s, n, k)|;
      DisjointSize(outside, Sent(aToB, s, n, k), Given(aToB, k));
    }
  }

  // ----- truncating an assignment at a level

  /** f with only the first `level` members of every group. */
  ghost function Truncate(f: seq<int>, level: nat): (t: seq<int>)
    ensures |t| == |f| && forall a :: 0 <= a < |t| ==> t[a] == f[a] || t[a] == UNASSIGNED
  {
    if f == [] then []
    else
      var n := |f| - 1;
      var t := Truncate(f[..n], level);
      t + [if |Group(t, f[n])| < level then f[n] else UNASSIGNED]
  }

  lemma GroupAppend(t: seq<int>, x: int, b: int)
    ensures Group(t + [x], b) == if x == b then Group(t, b) + {|t|} else Group(t, b)
  {
  }

  lemma {:induction false} TruncateGroup(f: seq<int>, level: nat, b: nat)
    ensures |Group(Truncate(f, level), b)| == if |Group(f, b)| < level then |Group(f, b)| else level
  {
    if f == [] {
      assert Group(f, b) == {};
    } else {
      var n := |f| - 1;
      var t := Truncate(f[..n], level);
      TruncateGroup(f[..n], level, b);
      assert f == f[..n] + [f[n]];
      GroupAppend(f[..n], f[n], b);
      GroupAppend(t, if |Group(t, f[n])| < level then f[n] else UNASSIGNED, b);
    }
  }

  lemma {:induction false} TruncateFilled(f: seq<int>, n: nat, level: nat)
    ensures Filled(Truncate(f, level), n, level) == Filled(f, n, level)
  {
    if n > 0 {
      TruncateFilled(f, n - 1, level);
      TruncateGroup(f, level, n - 1);
    }
  }

  /** A valid assignment truncated at a level is a partial one for the capacities of that level. */
  lemma TruncateIsPartial(options: seq<seq<nat>>, bMax: seq<nat>, f: seq<int>, level: nat)
    requires Assignment(options, bMax, f)
    ensures PartOf(options, Caps(bMax, level), Truncate(f, level))
    ensures |Given(Truncate(f, level), |bMax|)| == Filled(f, |bMax|, level)
  {
    var t := Truncate(f, level);
    forall b | 0 <= b < |bMax| ensures |Group(t, b)| <= level && |Group(t, b)| <= bMax[b] {
      TruncateGroup(f, level, b);
    }
    GivenIsFilled(t, |bMax|, level);
    TruncateFilled(f, |bMax|, level);
  }

  lemma {:induction false} FilledGrows(f: seq<int>, f': seq<int>, n: nat, level: nat)
    requires forall b :: 0 <= b < n ==> |Group(f, b)| <= |Group(f', b)|
    ensures Filled(f, n, level) <= Filled(f', n, level)
  {
    if n > 0 {
      FilledGrows(f, f', n - 1, level);
    }
  }

  lemma {:induction false} FilledAtMost(f: seq<int>, n: nat, level: nat, level': nat)
    requires level <= level'
    ensures Filled(f, n, level) <= Filled(f, n, level')
  {
    if n > 0 {
      FilledAtMost(f, n - 1, level, level');
    }
  }

  /** At each level reached, what is placed fills as much as any partial assignment of that level places. */
  ghost predicate BestUpTo(options: seq<seq<nat>>, bMax: seq<nat>, f: seq<int>, level: nat) {
    forall l: nat, h :: l <= level && PartOf(options, Caps(bMax, l), h) ==> |Given(h, |bMax|)| <= Filled(f, |bMax|, l)
  }

  /** No group has shrunk, and none is over its capacity. */
  ghost predicate Grown(cap: seq<nat>, f: seq<int>, f': seq<int>) {
    forall b :: 0 <= b < |cap| ==> |Group(f, b)| <= |Group(f', b)| <= cap[b]
  }

  lemma BestAtZero(options: seq<seq<nat>>, bMax: seq<nat>, f: seq<int>)
    ensures BestUpTo(options, bMax, f, 0)
  {
    forall h | PartOf(options, Caps(bMax, 0), h) ensures |Given(h, |bMax|)| <= Filled(f, |bMax|, 0) {
      GivenIsFilled(h, |bMax|, 0);
      FilledZero(h, f, |bMax|);
    }
  }

  lemma {:induction false} FilledZero(f: seq<int>, f': seq<int>, n: nat)
    ensures Filled(f, n, 0) == Filled(f', n, 0)
  {
    if n > 0 {
      FilledZero(f, f', n - 1);
    }
  }

  /** One level more: no group has shrunk, and the new level's placement is a largest one. */
  lemma BestNext(options: seq<seq<nat>>, bMax: seq<nat>, f: seq<int>, f': seq<int>, level: nat)
    requires BestUpTo(options, bMax, f, level)
    requires Grown(Caps(bMax, level + 1), f, f')
    requires PlacesMost(options, Caps(bMax, level + 1), f')
    ensures BestUpTo(options, bMax, f', level + 1)
  {
    forall l: nat, h | l <= level + 1 && PartOf(options, Caps(bMax, l), h)
      ensures |Given(h, |bMax|)| <= Filled(f', |bMax|, l)
    {
      if l <= level {
        FilledGrows(f, f', |bMax|, l);
      } else {
        GivenIsFilled(f', |bMax|, l);
      }
    }
  }

  /** The assignment of the last level spreads best. */
  lemma BestSpreads(options: seq<seq<nat>>, bMax: seq<nat>, f: seq<int>, level: nat)
    requires BestUpTo(options, bMax, f, level) && Assignment(options, Caps(bMax, level), f) && InRange(options, |bMax|)
    ensures SpreadsBest(options, bMax, f)
  {
    forall f', l: nat | Assignment(options, bMax, f') ensures Filled(f', |bMax|, l) <= Filled(f, |bMax|, l) {
      if l <= level {
        TruncateIsPartial(options, bMax, f', l);
      } else {
        var top := MaxOf(bMax) + l;
        GivenIsFilled(f, |bMax|, l);
        GivenIsFilled(f', |bMax|, top);
        FilledAtMost(f', |bMax|, l, top);
        AllGiven(options, f, |bMax|);
        AllGiven(options, f', |bMax|);
      }
    }
  }

  lemma AllGiven(options: seq<seq<nat>>, f: seq<int>, n: nat)
    requires |f| == |options| && InRange(options, n) && forall a :: 0 <= a < |f| ==> f[a] in options[a]
    ensures Given(f, n) == Below(|options|)
  {
  }

  // ----- dead ends

  lemma AllSent(options: seq<seq<nat>>, f: seq<int>, s: set<nat>, n: set<nat>, k: nat)
    requires |f| == |options| && forall a :: 0 <= a < |f| ==> f[a] in options[a]
    requires forall a :: a in s ==> a < |options| && forall b :: b in options[a] ==> b in n && b < k
    ensures Sent(f, s, n, k) == s
  {
  }

  /** An overfull part leaves no assignment at all. */
  lemma OverfullExcludes(options: seq<seq<nat>>, cap: seq<nat>, s: set<nat>, n: set<nat>)
    requires Overfull(options, cap, s, n)
    ensures NoAssignment(options, cap)
  {
    forall f ensures !Assignment(options, cap, f) {
      if Assignment(options, cap, f) {
        AllSent(options, f, s, n, |cap|);
        SentFits(cap, f, s, n, |cap|);
      }
    }
  }

  lemma {:induction false} SentFills(cap: seq<nat>, f: seq<int>, s: set<nat>, n: set<nat>, k: nat)
    requires k <= |cap|
    requires forall b :: b in n && b < |cap| ==> |Group(f, b)| >= cap[b] && Group(f, b) <= s
    ensures |Sent(f, s, n, k)| >= Total(cap, n, k)
  {
    if k > 0 {
      SentFills(cap, f, s, n, k - 1);
      if k - 1 in n {
        DisjointSize(Sent(f, s, n, k - 1), Group(f, k - 1), Sent(f, s, n, k));
      } else {
        assert Sent(f, s, n, k) == Sent(f, s, n, k - 1);
      }
    }
  }

  // ----- the state of the algorithm

  /** aToB and bToA describe one partial assignment, from two sides, within the capacities. */
  ghost predicate Partial(options: seq<seq<nat>>, cap: seq<nat>, aToB: seq<int>, bToA: seq<seq<nat>>) {
    && |aToB| == |options| && |bToA| == |cap|
    && (forall a :: 0 <= a < |aToB| ==> Placed(options, aToB, bToA, a))
    && (forall b :: 0 <= b < |bToA| ==> Roster(cap, aToB, bToA, b))
  }

  ghost predicate Placed(options: seq<seq<nat>>, aToB: seq<int>, bToA: seq<seq<nat>>, a: nat)
    requires a < |aToB| == |options|
  {
    aToB[a] != UNASSIGNED ==>
      0 <= aToB[a] < |bToA| && aToB[a] in options[a] && a in bToA[aToB[a]]
  }

  ghost predicate Roster(cap: seq<nat>, aToB: seq<int>, bToA: seq<seq<nat>>, b: nat)
    requires b < |bToA| == |cap|
  {
    && (forall a :: a in bToA[b] ==> a < |aToB| && aToB[a] == b)
    && (forall i, j :: 0 <= i < j < |bToA[b]| ==> bToA[b][i] != bToA[b][j])
    && |bToA[b]| <= cap[b]
  }

  lemma RosterIsGroup(aToB: seq<int>, roster: seq<nat>, b: nat)
    requires forall a :: a in roster <==> 0 <= a < |aToB| && aToB[a] == b
    requires forall i, j :: 0 <= i < j < |roster| ==> roster[i] != roster[j]
    ensures |Group(aToB, b)| == |roster|
  {
    ElementsSize(roster);
    assert Group(aToB, b) == Elements(roster);
  }

  // ----- the search for an augmenting path

  /** The discovered b's are distinct, and each was reached from startA or from a resident of an earlier one. */
  ghost predicate Discovery(
    options: seq<seq<nat>>, aToB: seq<int>, start: nat, parentA: seq<nat>, parentB: seq<nat>, order: seq<nat>)
  {
    && start < |parentA| == |aToB| == |options|
    && (forall j, k :: 0 <= j < k < |order| ==> order[j] != order[k])
    && (forall k :: 0 <= k < |order| ==> Traced(options, aToB, start, parentA, parentB, order, k))
  }

  ghost predicate Traced(
    options: seq<seq<nat>>, aToB: seq<int>, start: nat, parentA: seq<nat>, parentB: seq<nat>, order: seq<nat>, k: nat)
    requires k < |order| && |parentA| == |aToB| == |options|
  {
    && order[k] < |parentB| && parentB[order[k]] < |aToB| && order[k] in options[parentB[order[k]]]
    && (parentB[order[k]] == start ||
        (parentA[parentB[order[k]]] == aToB[parentB[order[k]]]
         && exists j :: 0 <= j < k && aToB[parentB[order[k]]] == order[j]))
  }

  /** The vectors of one breadth-first search. */
  datatype Marks = Marks(parentA: seq<nat>, parentB: seq<nat>, visitedA: seq<bool>, visitedB: seq<bool>)

  ghost predicate Shaped(m: Marks, na: nat, nb: nat, start: nat, order: seq<nat>) {
    && |m.parentA| == |m.visitedA| == na && |m.parentB| == |m.visitedB| == nb
    && start < na && m.visitedA[start]
    && (forall b :: 0 <= b < nb ==> m.visitedB[b] == (b in order))
  }

  /** A visited a other than the start was visited as a resident of a visited b. */
  ghost predicate Displaced(aToB: seq<int>, m: Marks, a: nat)
    requires a < |aToB| == |m.parentA| && |m.visitedA| == |aToB|
  {
    m.visitedA[a] ==> 0 <= aToB[a] < |m.visitedB| && m.visitedB[aToB[a]] && m.parentA[a] == aToB[a]
  }

  /** The residents of the visited b's are visited; those of `open` are still being looked at. */
  ghost predicate Spread(aToB: seq<int>, m: Marks, open: int, a: nat)
    requires a < |aToB| == |m.visitedA|
  {
    0 <= aToB[a] < |m.visitedB| && m.visitedB[aToB[a]] && aToB[a] != open ==> m.visitedA[a]
  }

  ghost predicate Queued(visitedA: seq<bool>, done: set<nat>, queue: seq<nat>) {
    && (forall a :: a in done ==> a < |visitedA| && visitedA[a])
    && (forall a :: a in queue ==> a < |visitedA|)
    && (forall a :: 0 <= a < |visitedA| ==> (a in queue <==> visitedA[a] && a !in done))
    && (forall j, k :: 0 <= j < k < |queue| ==> queue[j] != queue[k])
  }

  /** The bookkeeping of the search between two of its steps. */
  ghost predicate Search(
    options: seq<seq<nat>>, cap: seq<nat>, aToB: seq<int>, bToA: seq<seq<nat>>, start: nat,
    m: Marks, order: seq<nat>, done: set<nat>, queue: seq<nat>, open: int)
  {
    && |aToB| == |options| && |bToA| == |cap|
    && Shaped(m, |aToB|, |cap|, start, order)
    && Discovery(options, aToB, start, m.parentA, m.parentB, order)
    && (forall a :: 0 <= a < |aToB| && a != start ==> Displaced(aToB, m, a))
    && (forall a :: 0 <= a < |aToB| ==> Spread(aToB, m, open, a))
    && (forall b :: 0 <= b < |cap| && m.visitedB[b] ==> |bToA[b]| >= cap[b])
    && Queued(m.visitedA, done, queue)
    && (forall a, b :: a in done && b in options[a] && b < |cap| ==> m.visitedB[b])
  }

  lemma Begin(options: seq<seq<nat>>, cap: seq<nat>, aToB: seq<int>, bToA: seq<seq<nat>>, start: nat, m: Marks)
    requires start < |aToB| == |options| && |bToA| == |cap|
    requires |m.parentA| == |m.visitedA| == |aToB| && |m.parentB| == |m.visitedB| == |cap|
    requires forall a :: 0 <= a < |aToB| ==> m.visitedA[a] == (a == start)
    requires forall b :: 0 <= b < |cap| ==> !m.visitedB[b]
    ensures Search(options, cap, aToB, bToA, start, m, [], {}, [start], UNASSIGNED)
  {
  }

  /** Marking b as discovered from the head of the queue. */
  function MarkB(m: Marks, b: nat, current: nat): (r: Marks)
    requires b < |m.parentB| && b < |m.visitedB|
  {
    Marks(m.parentA, m.parentB[b := current], m.visitedA, m.visitedB[b := true])
  }

  lemma MarkBTraced(
    options: seq<seq<nat>>, cap: seq<nat>, aToB: seq<int>, bToA: seq<seq<nat>>, start: nat,
    m: Marks, order: seq<nat>, done: set<nat>, queue: seq<nat>, b: nat)
    requires Search(options, cap, aToB, bToA, start, m, order, done, queue, UNASSIGNED)
    requires queue != [] && queue[0] < |options| && b in options[queue[0]] && b < |cap| && !m.visitedB[b]
    ensures Discovery(options, aToB, start, m.parentA, m.parentB[b := queue[0]], order + [b])
  {
    var current := queue[0];
    assert current in queue;
    var parentB, longer := m.parentB[b := current], order + [b];
    forall k | 0 <= k < |longer| ensures Traced(options, aToB, start, m.parentA, parentB, longer, k) {
      if k < |order| {
        assert Traced(options, aToB, start, m.parentA, m.parentB, order, k);
        if m.parentB[order[k]] != start {
          var j :| 0 <= j < k && aToB[m.parentB[order[k]]] == order[j];
          assert longer[j] == order[j];
        }
      } else if current != start {
        assert Displaced(aToB, m, current);
        var j :| 0 <= j < |order| && order[j] == aToB[current];
        assert longer[j] == order[j];
      }
    }
  }

  lemma MarkBKeeps(
    options: seq<seq<nat>>, cap: seq<nat>, aToB: seq<int>, bToA: seq<seq<nat>>, start: nat,
    m: Marks, order: seq<nat>, done: set<nat>, queue: seq<nat>, b: nat)
    requires Search(options, cap, aToB, bToA, start, m, order, done, queue, UNASSIGNED)
    requires queue != [] && queue[0] < |options| && b in options[queue[0]] && b < |cap| && !m.visitedB[b]
    requires |bToA[b]| >= cap[b]
    ensures Search(options, cap, aToB, bToA, start, MarkB(m, b, queue[0]), order + [b], done, queue, b)
  {
    MarkBTraced(options, cap, aToB, bToA, start, m, order, done, queue, b);
    hide Discovery, Queued;
    var m1 := MarkB(m, b, queue[0]);
    forall a | 0 <= a < |aToB|
      ensures Spread(aToB, m1, b, a) && (a != start ==> Displaced(aToB, m1, a))
    {
      assert Spread(aToB, m, UNASSIGNED, a);
      assert a != start ==> Displaced(aToB, m, a);
    }
  }

  /** Marking the resident a of b as visited. */
  function MarkA(m: Marks, a: nat, b: nat): (r: Marks)
    requires a < |m.parentA| && a < |m.visitedA|
  {
    Marks(m.parentA[a := b], m.parentB, m.visitedA[a := true], m.visitedB)
  }

  lemma MarkATraced(
    options: seq<seq<nat>>, aToB: seq<int>, start: nat, parentA: seq<nat>, parentA': seq<nat>, parentB: seq<nat>,
    order: seq<nat>, a: nat)
    requires Discovery(options, aToB, start, parentA, parentB, order)
    requires a < |aToB| && aToB[a] >= 0 && parentA' == parentA[a := aToB[a]]
    ensures Discovery(options, aToB, start, parentA', parentB, order)
  {
    forall k | 0 <= k < |order| ensures Traced(options, aToB, start, parentA', parentB, order, k) {
      assert Traced(options, aToB, start, parentA, parentB, order, k);
    }
  }

  lemma MarkAKeeps(
    options: seq<seq<nat>>, cap: seq<nat>, aToB: seq<int>, bToA: seq<seq<nat>>, start: nat,
    m: Marks, order: seq<nat>, done: set<nat>, queue: seq<nat>, b: nat, a: nat)
    requires Search(options, cap, aToB, bToA, start, m, order, done, queue, b)
    requires a < |aToB| && aToB[a] == b < |cap| && m.visitedB[b] && !m.visitedA[a]
    ensures Search(options, cap, aToB, bToA, start, MarkA(m, a, b), order, done, queue + [a], b)
  {
    MarkATraced(options, aToB, start, m.parentA, m.parentA[a := b], m.parentB, order, a);
    hide Discovery;
    var m1 := MarkA(m, a, b);
    forall a' | 0 <= a' < |aToB|
      ensures Spread(aToB, m1, b, a') && (a' != start ==> Displaced(aToB, m1, a'))
    {
      assert Spread(aToB, m, b, a');
      assert a' != start ==> Displaced(aToB, m, a');
    }
    Enqueue(m.visitedA, done, queue, a);
  }

  lemma Enqueue(visitedA: seq<bool>, done: set<nat>, queue: seq<nat>, a: nat)
    requires Queued(visitedA, done, queue) && a < |visitedA| && !visitedA[a] && a !in done
    ensures Queued(visitedA[a := true], done, queue + [a])
  {
  }

  /** All residents of b are visited. */
  lemma ResidentsVisited(
    options: seq<seq<nat>>, cap: seq<nat>, aToB: seq<int>, bToA: seq<seq<nat>>, start: nat,
    m: Marks, order: seq<nat>, done: set<nat>, queue: seq<nat>, b: nat)
    requires Search(options, cap, aToB, bToA, start, m, order, done, queue, b)
    requires Partial(options, cap, aToB, bToA) && b < |bToA|
    requires forall a :: a in bToA[b] && a < |m.visitedA| ==> m.visitedA[a]
    ensures Search(options, cap, aToB, bToA, start, m, order, done, queue, UNASSIGNED)
  {
    hide Discovery, Queued;
    forall a | 0 <= a < |aToB| ensures Spread(aToB, m, UNASSIGNED, a) {
      assert Spread(aToB, m, b, a);
      assert Placed(options, aToB, bToA, a);
    }
  }

  /** The head of the queue has all its options visited. */
  lemma HeadDone(
    options: seq<seq<nat>>, cap: seq<nat>, aToB: seq<int>, bToA: seq<seq<nat>>, start: nat,
    m: Marks, order: seq<nat>, done: set<nat>, queue: seq<nat>)
    requires Search(options, cap, aToB, bToA, start, m, order, done, queue, UNASSIGNED)
    requires queue != [] && queue[0] < |options|
    requires forall b :: b in options[queue[0]] && b < |cap| ==> m.visitedB[b]
    ensures Search(options, cap, aToB, bToA, start, m, order, done + {queue[0]}, queue[1..], UNASSIGNED)
    ensures queue[0] !in done
  {
    hide Discovery, Displaced, Spread;
    Dequeue(m.visitedA, done, queue);
  }

  lemma Dequeue(visitedA: seq<bool>, done: set<nat>, queue: seq<nat>)
    requires Queued(visitedA, done, queue) && queue != []
    ensures Queued(visitedA, done + {queue[0]}, queue[1..])
    ensures queue[0] !in done
  {
    assert queue[0] in queue;
    var rest := queue[1..];
    forall a | a in rest ensures a in queue && a != queue[0] {
      var j :| 0 <= j < |rest| && rest[j] == a;
      assert queue[j + 1] == a;
    }
    forall a | a in queue && a != queue[0] ensures a in rest {
      var j :| 0 <= j < |queue| && queue[j] == a;
      assert rest[j - 1] == a;
    }
  }

  ghost function Visited(v: seq<bool>): (s: set<nat>)
    ensures forall i :: i in s <==> 0 <= i < |v| && v[i]
  {
    set i: nat | i < |v| && v[i]
  }

  /** A search that ends without a free place has found an overfull part. */
  lemma DeadEnd(
    options: seq<seq<nat>>, cap: seq<nat>, aToB: seq<int>, bToA: seq<seq<nat>>, start: nat,
    m: Marks, order: seq<nat>, done: set<nat>)
    requires Search(options, cap, aToB, bToA, start, m, order, done, [], UNASSIGNED)
    requires Partial(options, cap, aToB, bToA) && aToB[start] == UNASSIGNED && InRange(options, |cap|)
    ensures Overfull(options, cap, Visited(m.visitedA), Visited(m.visitedB))
    ensures Trapped(options, cap, aToB, Visited(m.visitedA), Visited(m.visitedB)) && start in Visited(m.visitedA)
  {
    hide Discovery;
    var s, n := Visited(m.visitedA), Visited(m.visitedB);
    forall b | b in n && b < |cap| ensures |Group(aToB, b)| >= cap[b] && Group(aToB, b) <= s {
      GroupSize(options, cap, aToB, bToA, b);
      forall a | a in Group(aToB, b) ensures a in s {
        assert Spread(aToB, m, UNASSIGNED, a);
      }
    }
    SentFills(cap, aToB, s, n, |cap|);
    DisjointSize(Sent(aToB, s, n, |cap|), {start}, s);
  }

  lemma GroupSize(options: seq<seq<nat>>, cap: seq<nat>, aToB: seq<int>, bToA: seq<seq<nat>>, b: nat)
    requires Partial(options, cap, aToB, bToA) && b < |bToA|
    ensures |Group(aToB, b)| == |bToA[b]|
  {
    assert Roster(cap, aToB, bToA, b);
    forall a | 0 <= a < |aToB| && aToB[a] == b ensures a in bToA[b] {
      assert Placed(options, aToB, bToA, a);
    }
    RosterIsGroup(aToB, bToA[b], b);
  }

  lemma QueueHead(
    options: seq<seq<nat>>, cap: seq<nat>, aToB: seq<int>, bToA: seq<seq<nat>>, start: nat,
    m: Marks, order: seq<nat>, done: set<nat>, queue: seq<nat>, open: int)
    requires Search(options, cap, aToB, bToA, start, m, order, done, queue, open)
    ensures |options| == |aToB| == |m.parentA| == |m.visitedA|
    ensures |cap| == |m.parentB| == |m.visitedB| == |bToA|
    ensures queue != [] ==> queue[0] < |options|
  {
    assert queue != [] ==> queue[0] in queue;
  }

  /** Queues the residents of a full b that are not yet visited: one of them may move elsewhere. */
  method QueueResidents(
    options: seq<seq<nat>>, cap: seq<nat>, aToB: seq<int>, bToA: seq<seq<nat>>, ghost startA: nat,
    m0: Marks, ghost order: seq<nat>, ghost done: set<nat>, ghost currentA: nat, q0: seq<nat>, b: nat)
    returns (m: Marks, q: seq<nat>)
    requires Partial(options, cap, aToB, bToA) && b < |bToA|
    requires Search(options, cap, aToB, bToA, startA, m0, order, done, [currentA] + q0, b)
    requires |m0.visitedB| == |cap| && m0.visitedB[b]
    ensures Search(options, cap, aToB, bToA, startA, m, order, done, [currentA] + q, UNASSIGNED)
    ensures m.visitedB == m0.visitedB
  {
    hide Search, Partial;
    m, q := m0, q0;
    for l := 0 to |bToA[b]|
      invariant Search(options, cap, aToB, bToA, startA, m, order, done, [currentA] + q, b)
      invariant m.visitedB == m0.visitedB && |m.visitedA| == |m0.visitedA|
      invariant forall k :: 0 <= k < l && bToA[b][k] < |m.visitedA| ==> m.visitedA[bToA[b][k]]
    {
      var previousA := bToA[b][l];
      Resident(options, cap, aToB, bToA, b, previousA);
      QueueHead(options, cap, aToB, bToA, startA, m, order, done, [currentA] + q, b);
      if !m.visitedA[previousA] {
        MarkAKeeps(options, cap, aToB, bToA, startA, m, order, done, [currentA] + q, b, previousA);
        m := MarkA(m, previousA, b);
        assert [currentA] + q + [previousA] == [currentA] + (q + [previousA]);
        q := q + [previousA];
      }
    }
    ResidentsVisited(options, cap, aToB, bToA, startA, m, order, done, [currentA] + q, b);
  }

  /** A breadth-first search for a b with room, or a proof that some part is overfull. */
  method FindAugmentingPath(
    options: seq<seq<nat>>, cap: seq<nat>, aToB: seq<int>, bToA: seq<seq<nat>>, startA: nat,
    pa: seq<nat>, pb: seq<nat>)
    returns (endB: int, m: Marks, ghost order: seq<nat>)
    requires Partial(options, cap, aToB, bToA) && InRange(options, |cap|)
    requires startA < |aToB| && aToB[startA] == UNASSIGNED && |pa| == |aToB| && |pb| == |bToA|
    ensures |m.parentA| == |aToB| && |m.parentB| == |bToA|
    ensures endB == UNASSIGNED || (0 <= endB < |cap| && |bToA[endB]| < cap[endB])
    ensures endB != UNASSIGNED ==>
              && Discovery(options, aToB, startA, m.parentA, m.parentB, order)
              && order != [] && order[|order| - 1] == endB
    ensures endB == UNASSIGNED ==>
              && NoAssignment(options, cap)
              && Trapped(options, cap, aToB, Visited(m.visitedA), Visited(m.visitedB)) && startA in Visited(m.visitedA)
  {
    m := Marks(pa, pb, seq(|aToB|, _ => false), seq(|bToA|, _ => false));
    m := Marks(m.parentA, m.parentB, m.visitedA[startA := true], m.visitedB);
    var q := [startA];
    order := [];
    ghost var done: set<nat> := {};
    Begin(options, cap, aToB, bToA, startA, m);
    hide Search, Partial, Discovery, NoAssignment, Trapped, MarkA, MarkB;
    while q != []
      invariant Search(options, cap, aToB, bToA, startA, m, order, done, q, UNASSIGNED)
      decreases Below(|options|) - done
    {
      var currentA := q[0];
      QueueHead(options, cap, aToB, bToA, startA, m, order, done, q, UNASSIGNED);
      assert q == [currentA] + q[1..];
      q := q[1..];
      for i := 0 to |options[currentA]|
        invariant Search(options, cap, aToB, bToA, startA, m, order, done, [currentA] + q, UNASSIGNED)
        invariant |m.visitedB| == |cap|
        invariant forall l :: 0 <= l < i ==> options[currentA][l] < |cap| && m.visitedB[options[currentA][l]]
      {
        var b := options[currentA][i];
        QueueHead(options, cap, aToB, bToA, startA, m, order, done, [currentA] + q, UNASSIGNED);
        assert b in options[currentA];
        if m.visitedB[b] {
          continue;
        }
        if |bToA[b]| < cap[b] {
          MarkBTraced(options, cap, aToB, bToA, startA, m, order, done, [currentA] + q, b);
          m := Marks(m.parentA, m.parentB[b := currentA], m.visitedA, m.visitedB[b := true]);
          order := order + [b];
          return b, m, order;
        }
        MarkBKeeps(options, cap, aToB, bToA, startA, m, order, done, [currentA] + q, b);
        m := MarkB(m, b, currentA);
        order := order + [b];
        m, q := QueueResidents(options, cap, aToB, bToA, startA, m, order, done, currentA, q, b);
      }
      HeadDone(options, cap, aToB, bToA, startA, m, order, done, [currentA] + q);
      assert ([currentA] + q)[1..] == q;
      done := done + {currentA};
    }
    DeadEnd(options, cap, aToB, bToA, startA, m, order, done);
    OverfullExcludes(options, cap, Visited(m.visitedA), Visited(m.visitedB));
    QueueHead(options, cap, aToB, bToA, startA, m, order, done, [], UNASSIGNED);
    return UNASSIGNED, m, order;
  }

  lemma Resident(options: seq<seq<nat>>, cap: seq<nat>, aToB: seq<int>, bToA: seq<seq<nat>>, b: nat, a: nat)
    requires Partial(options, cap, aToB, bToA) && b < |bToA| && a in bToA[b]
    ensures a < |aToB| && aToB[a] == b
  {
    assert Roster(cap, aToB, bToA, b);
  }

  // ----- flipping the path

  function IndexOf(s: seq<nat>, a: nat): (i: nat)
    requires a in s
    ensures i < |s| && s[i] == a && forall k :: 0 <= k < i ==> s[k] != a
  {
    if s[0] == a then 0 else 1 + IndexOf(s[1..], a)
  }

  /** The swap-and-pop removal: the last element takes a's place. */
  function SwapPop(s: seq<nat>, a: nat): (r: seq<nat>)
    requires a in s
    ensures |r| == |s| - 1
  {
    s[IndexOf(s, a) := s[|s| - 1]][..|s| - 1]
  }

  lemma SwapPopRemoves(s: seq<nat>, a: nat)
    requires a in s && forall i, j :: 0 <= i < j < |s| ==> s[i] != s[j]
    ensures forall x :: x in SwapPop(s, a) <==> x in s && x != a
    ensures forall i, j :: 0 <= i < j < |SwapPop(s, a)| ==> SwapPop(s, a)[i] != SwapPop(s, a)[j]
  {
    var r, p := SwapPop(s, a), IndexOf(s, a);
    forall x | x in s && x != a ensures x in r {
      var i :| 0 <= i < |s| && s[i] == x;
      assert if i == |s| - 1 then r[p] == x else r[i] == x;
    }
  }

  ghost predicate HasRoom(cap: seq<nat>, bToA: seq<seq<nat>>, b: nat) {
    b < |bToA| == |cap| && |bToA[b]| < cap[b]
  }

  /** An unassigned a joins a b with room. */
  lemma Join(options: seq<seq<nat>>, cap: seq<nat>, aToB: seq<int>, bToA: seq<seq<nat>>, a: nat, b: nat)
    requires Partial(options, cap, aToB, bToA) && HasRoom(cap, bToA, b)
    requires a < |aToB| && aToB[a] == UNASSIGNED && b in options[a]
    ensures Partial(options, cap, aToB[a := b], bToA[b := bToA[b] + [a]])
  {
    var f, g := aToB[a := b], bToA[b := bToA[b] + [a]];
    forall x | 0 <= x < |f| ensures Placed(options, f, g, x) {
      assert Placed(options, aToB, bToA, x);
      assert x == a ==> a in g[b];
    }
    forall y | 0 <= y < |g| ensures Roster(cap, f, g, y) {
      assert Roster(cap, aToB, bToA, y);
    }
  }

  /** An assigned a leaves its b, which then has room. */
  lemma Leave(options: seq<seq<nat>>, cap: seq<nat>, aToB: seq<int>, bToA: seq<seq<nat>>, a: nat, b: nat)
    requires Partial(options, cap, aToB, bToA) && a < |aToB| && aToB[a] == b < |bToA|
    ensures a in bToA[b]
    ensures Partial(options, cap, aToB[a := UNASSIGNED], bToA[b := SwapPop(bToA[b], a)])
    ensures HasRoom(cap, bToA[b := SwapPop(bToA[b], a)], b)
  {
    assert Placed(options, aToB, bToA, a);
    assert Roster(cap, aToB, bToA, b);
    SwapPopRemoves(bToA[b], a);
    hide SwapPop;
    var f, g := aToB[a := UNASSIGNED], bToA[b := SwapPop(bToA[b], a)];
    forall x | 0 <= x < |f| ensures Placed(options, f, g, x) {
      assert Placed(options, aToB, bToA, x);
    }
    forall y | 0 <= y < |g| ensures Roster(cap, f, g, y) {
      assert Roster(cap, aToB, bToA, y);
    }
  }

  /** Moving the last a of the chain leaves the chain before it intact. */
  lemma FlipKeepsDiscovery(
    options: seq<seq<nat>>, aToB: seq<int>, start: nat, parentA: seq<nat>, parentB: seq<nat>, order: seq<nat>,
    a: nat, j: nat)
    requires Discovery(options, aToB, start, parentA, parentB, order)
    requires a < |aToB| && a != start && j < |order| && aToB[a] == order[j]
    ensures Discovery(options, aToB[a := order[|order| - 1]], start, parentA, parentB, order[..j + 1])
  {
    var earlier := order[..j + 1];
    var f := aToB[a := order[|order| - 1]];
    forall k | 0 <= k < |earlier| ensures Traced(options, f, start, parentA, parentB, earlier, k) {
      assert Traced(options, aToB, start, parentA, parentB, order, k);
      if parentB[order[k]] != start {
        var i :| 0 <= i < k && aToB[parentB[order[k]]] == order[i];
        assert earlier[i] == order[i];
      }
    }
  }

  ghost function Unplaced(aToB: seq<int>): (s: set<nat>)
    ensures forall a :: a in s <==> 0 <= a < |aToB| && aToB[a] == UNASSIGNED
  {
    set a: nat | a < |aToB| && aToB[a] == UNASSIGNED
  }

  lemma FreeMoveKeepsTraps(
    options: seq<seq<nat>>, cap: seq<nat>, f: seq<int>, aToB: seq<int>, bToA: seq<seq<nat>>, a: nat, b: nat)
    requires Partial(options, cap, aToB, bToA) && HasRoom(cap, bToA, b)
    requires a < |aToB| == |options| && b in options[a]
    requires forall s, n :: Trapped(options, cap, f, s, n) ==> Trapped(options, cap, aToB, s, n)
    ensures forall s, n :: Trapped(options, cap, f, s, n) ==> Trapped(options, cap, aToB[a := b], s, n)
  {
    GroupSize(options, cap, aToB, bToA, b);
    hide Trapped;
    var moved := aToB[a := b];
    forall s, n | Trapped(options, cap, f, s, n) ensures Trapped(options, cap, moved, s, n) {
      MoveKeepsTrap(options, cap, aToB, s, n, a, b);
    }
  }

  /** Gives endB to the a it was discovered from, that a's old place to the next, and so on back to start. */
  method Flip(
    options: seq<seq<nat>>, cap: seq<nat>, f: seq<int>, g: seq<seq<nat>>, start: nat,
    endB: nat, parentA: seq<nat>, parentB: seq<nat>, ghost order: seq<nat>)
    returns (aToB: seq<int>, bToA: seq<seq<nat>>)
    requires Partial(options, cap, f, g) && HasRoom(cap, g, endB)
    requires start < |f| && f[start] == UNASSIGNED
    requires Discovery(options, f, start, parentA, parentB, order)
    requires order != [] && order[|order| - 1] == endB && |parentA| == |f| && |parentB| == |g|
    ensures Partial(options, cap, aToB, bToA) && |aToB| == |f|
    ensures Unplaced(aToB) == Unplaced(f) - {start}
    ensures |bToA| == |g| && forall b :: 0 <= b < |g| ==> |bToA[b]| == |g[b]| + if b == endB then 1 else 0
    ensures forall s, n :: Trapped(options, cap, f, s, n) ==> Trapped(options, cap, aToB, s, n)
  {
    aToB, bToA := f, g;
    var currentB := endB;
    ghost var chain := order;
    while true
      invariant Partial(options, cap, aToB, bToA) && HasRoom(cap, bToA, currentB)
      invariant Discovery(options, aToB, start, parentA, parentB, chain)
      invariant chain != [] && chain[|chain| - 1] == currentB && |bToA| == |g| && |aToB| == |f|
      invariant Unplaced(aToB) == Unplaced(f)
      invariant forall b :: 0 <= b < |g| ==>
                  |bToA[b]| + (if b == currentB then 1 else 0) == |g[b]| + if b == endB then 1 else 0
      invariant forall s, n :: Trapped(options, cap, f, s, n) ==> Trapped(options, cap, aToB, s, n)
      decreases |chain|
    {
      assert Traced(options, aToB, start, parentA, parentB, chain, |chain| - 1);
      var currentA := parentB[currentB];
      FreeMoveKeepsTraps(options, cap, f, aToB, bToA, currentA, currentB);
      if currentA != start {
        var previousB := parentA[currentA];
        ghost var j :| 0 <= j < |chain| - 1 && aToB[currentA] == chain[j];
        assert Traced(options, aToB, start, parentA, parentB, chain, j);
        hide Partial, Discovery, SwapPop, Trapped;
        Leave(options, cap, aToB, bToA, currentA, previousB);
        bToA := bToA[previousB := SwapPop(bToA[previousB], currentA)];
        assert HasRoom(cap, bToA, currentB);
        Join(options, cap, aToB[currentA := UNASSIGNED], bToA, currentA, currentB);
        FlipKeepsDiscovery(options, aToB, start, parentA, parentB, chain, currentA, j);
        bToA := bToA[currentB := bToA[currentB] + [currentA]];
        assert aToB[currentA := UNASSIGNED][currentA := currentB] == aToB[currentA := currentB];
        aToB := aToB[currentA := currentB];
        assert Unplaced(aToB) == Unplaced(f);
        currentB := previousB;
        chain := chain[..j + 1];
      } else {
        Join(options, cap, aToB, bToA, currentA, currentB);
        bToA := bToA[currentB := bToA[currentB] + [currentA]];
        aToB := aToB[currentA := currentB];
        assert Unplaced(aToB) == Unplaced(f) - {start};
        return;
      }
    }
  }

  // ----- raising the water level

  lemma PartialMonotone(options: seq<seq<nat>>, cap: seq<nat>, cap': seq<nat>, aToB: seq<int>, bToA: seq<seq<nat>>)
    requires Partial(options, cap, aToB, bToA)
    requires |cap| == |cap'| && forall b :: 0 <= b < |cap| ==> cap[b] <= cap'[b]
    ensures Partial(options, cap', aToB, bToA)
  {
    forall b | 0 <= b < |bToA| ensures Roster(cap', aToB, bToA, b) {
      assert Roster(cap, aToB, bToA, b);
    }
  }

  lemma PartialRaised(options: seq<seq<nat>>, bMax: seq<nat>, level: nat, aToB: seq<int>, bToA: seq<seq<nat>>)
    requires Partial(options, Caps(bMax, level), aToB, bToA)
    ensures Partial(options, Caps(bMax, level + 1), aToB, bToA)
  {
    PartialMonotone(options, Caps(bMax, level), Caps(bMax, level + 1), aToB, bToA);
  }

  lemma CapsAtZero(bMax: seq<nat>)
    ensures Caps(bMax, 0) == seq(|bMax|, _ => 0)
  {
  }

  lemma CompleteIsAssignment(options: seq<seq<nat>>, cap: seq<nat>, aToB: seq<int>, bToA: seq<seq<nat>>)
    requires Partial(options, cap, aToB, bToA) && Unplaced(aToB) == {}
    ensures Assignment(options, cap, aToB)
  {
    forall a | 0 <= a < |aToB| ensures aToB[a] in options[a] {
      assert Placed(options, aToB, bToA, a);
      assert a !in Unplaced(aToB);
    }
    forall b | 0 <= b < |cap| ensures |Group(aToB, b)| <= cap[b] {
      GroupSize(options, cap, aToB, bToA, b);
      assert Roster(cap, aToB, bToA, b);
    }
  }

  /** With no capacity at all nothing can be assigned. */
  lemma LevelZero(options: seq<seq<nat>>, bMax: seq<nat>)
    requires options != [] && InRange(options, |bMax|)
    ensures NoAssignment(options, Caps(bMax, 0))
  {
    forall f ensures !Assignment(options, Caps(bMax, 0), f) {
      if Assignment(options, Caps(bMax, 0), f) {
        InOwnGroup(options, f, |bMax|);
      }
    }
  }

  lemma InOwnGroup(options: seq<seq<nat>>, f: seq<int>, n: nat)
    requires options != [] && InRange(options, n) && |f| == |options| && f[0] in options[0]
    ensures 0 <= f[0] < n && |Group(f, f[0])| > 0
  {
    assert 0 in Group(f, f[0]);
  }

  /** An assignment whose groups are all at most `level` respects the capacities of that level. */
  lemma SmallGroups(options: seq<seq<nat>>, bMax: seq<nat>, level: nat, f: seq<int>)
    requires Assignment(options, bMax, f) && Largest(f, |bMax|) <= level
    ensures Assignment(options, Caps(bMax, level), f)
  {
  }

  lemma LargestWithin(options: seq<seq<nat>>, bMax: seq<nat>, level: nat, f: seq<int>)
    requires Assignment(options, Caps(bMax, level), f)
    ensures Assignment(options, bMax, f) && Largest(f, |bMax|) <= level
  {
  }

  /** If a level leaves someone out, every valid assignment has a larger group. */
  lemma AboveLevel(options: seq<seq<nat>>, bMax: seq<nat>, level: nat, f: seq<int>)
    requires NoAssignment(options, Caps(bMax, level)) && Assignment(options, bMax, f)
    ensures Largest(f, |bMax|) > level
  {
    if Largest(f, |bMax|) <= level {
      SmallGroups(options, bMax, level, f);
    }
  }

  /** The level reached is optimal: one level less leaves someone out. */
  lemma OptimalLevel(options: seq<seq<nat>>, bMax: seq<nat>, level: nat, r: seq<int>)
    requires level > 0 && NoAssignment(options, Caps(bMax, level - 1))
    requires Assignment(options, Caps(bMax, level), r)
    ensures Assignment(options, bMax, r)
    ensures forall f :: Assignment(options, bMax, f) ==> Largest(r, |bMax|) <= Largest(f, |bMax|)
  {
    hide *;
    LargestWithin(options, bMax, level, r);
    forall f | Assignment(options, bMax, f) ensures Largest(r, |bMax|) <= Largest(f, |bMax|) {
      AboveLevel(options, bMax, level - 1, f);
    }
  }

  function MaxOf(s: seq<nat>): (m: nat)
    ensures forall i :: 0 <= i < |s| ==> s[i] <= m
  {
    if s == [] then 0
    else
      var m := MaxOf(s[..|s| - 1]);
      if s[|s| - 1] > m then s[|s| - 1] else m
  }

  /** Step 3a: one more place for every b that has not reached its maximum. */
  method Raise(bMax: seq<nat>, current: seq<nat>, ghost level: nat) returns (next: seq<nat>, increased: bool)
    requires current == Caps(bMax, level)
    ensures next == Caps(bMax, level + 1)
    ensures increased <==> exists b :: 0 <= b < |bMax| && level < bMax[b]
    ensures if increased then level < MaxOf(bMax) else next == bMax
  {
    next, increased := current, false;
    for i := 0 to |bMax|
      invariant |next| == |bMax|
      invariant forall b :: 0 <= b < |bMax| ==> next[b] == Caps(bMax, if b < i then level + 1 else level)[b]
      invariant increased <==> exists b :: 0 <= b < i && level < bMax[b]
    {
      if next[i] < bMax[i] {
        next := next[i := next[i] + 1];
        increased := true;
      }
    }
  }

  /** Step 3b: tries to place every unassigned a at the present capacities. */
  method PlaceAll(
    options: seq<seq<nat>>, cap: seq<nat>, f: seq<int>, g: seq<seq<nat>>, count: nat, pa: seq<nat>, pb: seq<nat>)
    returns (aToB: seq<int>, bToA: seq<seq<nat>>, assignedCount: nat, parentA: seq<nat>, parentB: seq<nat>)
    requires Partial(options, cap, f, g) && InRange(options, |cap|)
    requires count + |Unplaced(f)| == |options| && |pa| == |f| && |pb| == |g|
    ensures Partial(options, cap, aToB, bToA) && |parentA| == |aToB| && |parentB| == |bToA|
    ensures assignedCount + |Unplaced(aToB)| == |options|
    ensures Unplaced(aToB) != {} ==> NoAssignment(options, cap)
    ensures PlacesMost(options, cap, aToB)
    ensures Grown(cap, f, aToB)
  {
    hide Partial, Discovery, NoAssignment, Trapped, PlacesMost, Grown;
    aToB, bToA, assignedCount, parentA, parentB := f, g, count, pa, pb;
    ghost var stuck := false;
    ghost var s: set<nat>, n: set<nat> := {}, {};
    NoTrap(options, cap, f);
    SameLengths(options, cap, f, g);
    for i := 0 to |options|
      invariant Partial(options, cap, aToB, bToA)
      invariant |aToB| == |options| == |parentA| && |bToA| == |parentB| == |cap|
      invariant assignedCount + |Unplaced(aToB)| == |options|
      invariant stuck ==> NoAssignment(options, cap)
      invariant !stuck ==> forall a :: 0 <= a < i ==> a !in Unplaced(aToB)
      invariant Trapped(options, cap, aToB, s, n) && forall a :: 0 <= a < i && a in Unplaced(aToB) ==> a in s
      invariant forall b :: 0 <= b < |cap| ==> |g[b]| <= |bToA[b]|
    {
      if aToB[i] != UNASSIGNED {
        continue;
      }
      var endB, m, order := FindAugmentingPath(options, cap, aToB, bToA, i, parentA, parentB);
      parentA, parentB := m.parentA, m.parentB;
      if endB != UNASSIGNED {
        ghost var before := Unplaced(aToB);
        assert i in before;
        aToB, bToA := Flip(options, cap, aToB, bToA, i, endB, parentA, parentB, order);
        SameLengths(options, cap, aToB, bToA);
        assert |before - {i}| == |before| - 1;
        assignedCount := assignedCount + 1;
      } else {
        stuck := true;
        TrapsUnite(options, cap, aToB, s, n, Visited(m.visitedA), Visited(m.visitedB));
        s, n := s + Visited(m.visitedA), n + Visited(m.visitedB);
      }
    }
    PartialIsSome(options, cap, aToB, bToA);
    TrappedPlacesMost(options, cap, aToB, s, n);
    GroupsGrew(options, cap, f, g, aToB, bToA);
  }

  lemma NoTrap(options: seq<seq<nat>>, cap: seq<nat>, aToB: seq<int>)
    ensures Trapped(options, cap, aToB, {}, {})
  {
  }

  lemma PartialIsSome(options: seq<seq<nat>>, cap: seq<nat>, aToB: seq<int>, bToA: seq<seq<nat>>)
    requires Partial(options, cap, aToB, bToA)
    ensures PartOf(options, cap, aToB)
  {
    forall a | 0 <= a < |aToB| ensures aToB[a] == UNASSIGNED || aToB[a] in options[a] {
      assert Placed(options, aToB, bToA, a);
    }
    forall b | 0 <= b < |cap| ensures |Group(aToB, b)| <= cap[b] {
      GroupSize(options, cap, aToB, bToA, b);
      assert Roster(cap, aToB, bToA, b);
    }
  }

  lemma GroupsGrew(
    options: seq<seq<nat>>, cap: seq<nat>, f: seq<int>, g: seq<seq<nat>>, aToB: seq<int>, bToA: seq<seq<nat>>)
    requires Partial(options, cap, f, g) && Partial(options, cap, aToB, bToA)
    requires |g| == |bToA| == |cap| && forall b :: 0 <= b < |cap| ==> |g[b]| <= |bToA[b]|
    ensures Grown(cap, f, aToB)
  {
    hide Partial;
    forall b | 0 <= b < |cap| ensures |Group(f, b)| <= |Group(aToB, b)| <= cap[b] {
      GroupSize(options, cap, f, g, b);
      GroupSize(options, cap, aToB, bToA, b);
      PartialIsSome(options, cap, aToB, bToA);
    }
  }

  lemma SameLengths(options: seq<seq<nat>>, cap: seq<nat>, aToB: seq<int>, bToA: seq<seq<nat>>)
    requires Partial(options, cap, aToB, bToA)
    ensures |aToB| == |options| && |bToA| == |cap|
  {
  }

  lemma NothingPlaced(options: seq<seq<nat>>, cap: seq<nat>, f: seq<int>, g: seq<seq<nat>>)
    requires |f| == |options| && forall a :: 0 <= a < |f| ==> f[a] == UNASSIGNED
    requires |g| == |cap| && forall b :: 0 <= b < |g| ==> g[b] == []
    ensures Partial(options, cap, f, g) && |Unplaced(f)| == |options|
  {
    assert Unplaced(f) == Below(|options|);
  }

  /**
    Assigns every a to one of its options within the maxima so that the largest group is as small as
    in any valid assignment, and the groups, cut at any level, hold as many as those of any valid
    assignment; empty, for a non-empty input, only if no valid assignment exists.
   */
  method Assign(options: seq<seq<nat>>, bMax: seq<nat>) returns (r: seq<int>)
    requires InRange(options, |bMax|)
    ensures r == [] && options != [] ==> NoAssignment(options, bMax)
    ensures r != [] || options == [] ==> Assignment(options, bMax, r)
    ensures r != [] ==>
              forall f :: Assignment(options, bMax, f) ==> Largest(r, |bMax|) <= Largest(f, |bMax|)
    ensures r != [] ==> SpreadsBest(options, bMax, r)
  {
    hide Partial, NoAssignment, Assignment, BestUpTo, PlacesMost, SpreadsBest, Largest, Filled, Grown, InRange;
    if |options| == 0 {
      NothingPlaced(options, bMax, [], seq(|bMax|, _ => []));
      CompleteIsAssignment(options, bMax, [], seq(|bMax|, _ => []));
      return [];
    }
    var aToB := seq(|options|, _ => UNASSIGNED);
    var bToA: seq<seq<nat>> := seq(|bMax|, _ => []);
    var parentB := seq(|bMax|, _ => 0);
    var parentA := seq(|options|, _ => 0);
    var assignedCount: nat := 0;
    var currentBMax := seq(|bMax|, _ => 0);
    var capacityIncreased := true;
    ghost var level := 0;
    CapsAtZero(bMax);
    LevelZero(options, bMax);
    NothingPlaced(options, currentBMax, aToB, bToA);
    BestAtZero(options, bMax, aToB);
    while assignedCount < |options| && capacityIncreased
      invariant currentBMax == Caps(bMax, level)
      invariant Partial(options, currentBMax, aToB, bToA)
      invariant |parentA| == |aToB| && |parentB| == |bToA|
      invariant assignedCount + |Unplaced(aToB)| == |options|
      invariant Unplaced(aToB) != {} ==> NoAssignment(options, currentBMax)
      invariant Unplaced(aToB) == {} ==> level > 0 && NoAssignment(options, Caps(bMax, level - 1))
      invariant if capacityIncreased then level <= MaxOf(bMax) else currentBMax == bMax
      invariant BestUpTo(options, bMax, aToB, level)
      decreases capacityIncreased, MaxOf(bMax) - level
    {
      ghost var before := aToB;
      assert Unplaced(aToB) != {};
      currentBMax, capacityIncreased := Raise(bMax, currentBMax, level);
      level := level + 1;
      PartialRaised(options, bMax, level - 1, aToB, bToA);
      aToB, bToA, assignedCount, parentA, parentB :=
        PlaceAll(options, currentBMax, aToB, bToA, assignedCount, parentA, parentB);
      BestNext(options, bMax, before, aToB, level - 1);
    }
    if assignedCount < |options| {
      assert Unplaced(aToB) != {};
      return [];
    }
    CompleteIsAssignment(options, currentBMax, aToB, bToA);
    OptimalLevel(options, bMax, level, aToB);
    BestSpreads(options, bMax, aToB, level);
    return aToB;
  }
}
