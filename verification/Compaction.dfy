/**
  Left compaction as a list of moves over the memory the allocator manages, and the splitting of moves
  into copies whose source and destination do not overlap.
 */
module Compaction {
  import opened Arithmetic
  import opened Sets
  import opened FreeLists

  datatype Move = Move(src: nat, dst: nat, size: nat)

  datatype UpdatedAlloc = UpdatedAlloc(offset: nat, id: nat)

  // ----- what moves do to memory

  ghost predicate InBounds(m: Move, n: nat) {
    m.src + m.size <= n && m.dst + m.size <= n
  }

  ghost predicate AllInBounds(ms: seq<Move>, n: nat) {
    forall k :: 0 <= k < |ms| ==> InBounds(ms[k], n)
  }

  /** One memmove. */
  ghost function Moved<T>(mem: seq<T>, m: Move): (r: seq<T>)
    requires InBounds(m, |mem|)
    ensures |r| == |mem|
    ensures forall i :: 0 <= i < |mem| ==>
      r[i] == if m.dst <= i < m.dst + m.size then mem[m.src + (i - m.dst)] else mem[i]
  {
    seq(|mem|, i requires 0 <= i < |mem| =>
      if m.dst <= i < m.dst + m.size then mem[m.src + (i - m.dst)] else mem[i])
  }

  /** The moves one after the other. */
  ghost function Exec<T>(mem: seq<T>, ms: seq<Move>): (r: seq<T>)
    requires AllInBounds(ms, |mem|)
    ensures |r| == |mem|
  {
    if ms == [] then mem else Moved(Exec(mem, ms[..|ms| - 1]), ms[|ms| - 1])
  }

  lemma {:induction false} ExecAppend<T>(mem: seq<T>, a: seq<Move>, b: seq<Move>)
    requires AllInBounds(a, |mem|) && AllInBounds(b, |mem|)
    ensures AllInBounds(a + b, |mem|)
    ensures Exec(mem, a + b) == Exec(Exec(mem, a), b)
  {
    if b == [] {
      assert a + b == a;
    } else {
      var n := |b| - 1;
      ExecAppend(mem, a, b[..n]);
      assert (a + b)[..|a + b| - 1] == a + b[..n];
    }
  }

  /** A move to the left may be made in two parts, the left part first. */
  lemma SplitMove<T>(mem: seq<T>, m: Move, a: nat)
    requires InBounds(m, |mem|) && m.dst <= m.src && a <= m.size
    ensures Moved(mem, m) == Moved(Moved(mem, Move(m.src, m.dst, a)), Move(m.src + a, m.dst + a, m.size - a))
  {
  }

  // ----- disjunct copies

  /** The copies a move is split into: whole chunks of the distance moved, then the rest. */
  function Chunks(m: Move): (r: seq<Move>)
    requires m.dst < m.src || m.size == 0
    decreases m.size
  {
    var chunkSize := m.src - m.dst;
    if m.dst >= m.src || m.size <= chunkSize then [m]
    else
      [Move(m.src, m.dst, chunkSize)] + Chunks(Move(m.src + chunkSize, m.dst + chunkSize, m.size - chunkSize))
  }

  ghost predicate Disjoint(m: Move) {
    m.dst + m.size <= m.src || m.size == 0
  }

  lemma {:induction false} ChunksDisjoint(m: Move)
    requires m.dst < m.src || m.size == 0
    ensures forall k :: 0 <= k < |Chunks(m)| ==> Disjoint(Chunks(m)[k])
    decreases m.size
  {
    var chunkSize := m.src - m.dst;
    if m.dst < m.src && m.size > chunkSize {
      ChunksDisjoint(Move(m.src + chunkSize, m.dst + chunkSize, m.size - chunkSize));
    }
  }

  lemma {:induction false} ChunksExec<T>(mem: seq<T>, m: Move)
    requires (m.dst < m.src || m.size == 0) && InBounds(m, |mem|)
    ensures AllInBounds(Chunks(m), |mem|)
    ensures Exec(mem, Chunks(m)) == Moved(mem, m)
    decreases m.size
  {
    var chunkSize := m.src - m.dst;
    if m.dst < m.src && m.size > chunkSize {
      var first := Move(m.src, m.dst, chunkSize);
      var rest := Move(m.src + chunkSize, m.dst + chunkSize, m.size - chunkSize);
      assert Chunks(m) == [first] + Chunks(rest);
      hide Chunks, Moved, Exec;
      ChunksExec(Moved(mem, first), rest);
      ExecOne(mem, first);
      ExecAppend(mem, [first], Chunks(rest));
      SplitMove(mem, m, chunkSize);
    } else {
      ExecOne(mem, m);
    }
  }

  lemma ExecOne<T>(mem: seq<T>, m: Move)
    requires InBounds(m, |mem|)
    ensures AllInBounds([m], |mem|) && Exec(mem, [m]) == Moved(mem, m)
  {
    assert [m][..0] == [];
  }

  function Split(ms: seq<Move>): seq<Move>
    requires forall k :: 0 <= k < |ms| ==> ms[k].dst < ms[k].src || ms[k].size == 0
  {
    if ms == [] then [] else Split(ms[..|ms| - 1]) + Chunks(ms[|ms| - 1])
  }

  lemma {:induction false} SplitDisjoint(ms: seq<Move>)
    requires forall k :: 0 <= k < |ms| ==> ms[k].dst < ms[k].src || ms[k].size == 0
    ensures forall k :: 0 <= k < |Split(ms)| ==> Disjoint(Split(ms)[k])
  {
    if ms != [] {
      SplitDisjoint(ms[..|ms| - 1]);
      ChunksDisjoint(ms[|ms| - 1]);
    }
  }

  /** Splitting changes nothing in memory. */
  lemma {:induction false} SplitExec<T>(mem: seq<T>, ms: seq<Move>)
    requires forall k :: 0 <= k < |ms| ==> ms[k].dst < ms[k].src || ms[k].size == 0
    requires AllInBounds(ms, |mem|)
    ensures AllInBounds(Split(ms), |mem|)
    ensures Exec(mem, Split(ms)) == Exec(mem, ms)
  {
    if ms != [] {
      var n := |ms| - 1;
      SplitExec(mem, ms[..n]);
      ChunksExec(Exec(mem, ms[..n]), ms[n]);
      ExecAppend(mem, Split(ms[..n]), Chunks(ms[n]));
    }
  }

  /** A non-empty move in place: it overlaps itself at distance zero, so counting its chunks divides by zero. */
  predicate InPlace(m: Move) {
    m.src == m.dst && m.size > 0
  }

  /** For moves not to the right, the overlapping ones have a divisor exactly when they are not in place. */
  lemma DivisorExactlyOffPlace(m: Move)
    requires m.dst <= m.src
    ensures (m.size > m.src - m.dst ==> m.src - m.dst != 0) <==> m.dst < m.src || m.size == 0
  {
  }

  lemma DivideStep(x: nat, c: nat)
    requires c > 0
    ensures (x + c) / c == x / c + 1
  {
    SameQuotient((x + c) / c, (x + c) % c, x / c + 1, x % c, c);
  }

  /** `(remainingSize + chunkSize - 1) / chunkSize` is the number of chunks. */
  lemma {:induction false} ChunkCount(m: Move)
    requires m.dst < m.src && m.size > 0
    ensures |Chunks(m)| == (m.size + (m.src - m.dst) - 1) / (m.src - m.dst)
    decreases m.size
  {
    var chunkSize := m.src - m.dst;
    if m.size > chunkSize {
      ChunkCount(Move(m.src + chunkSize, m.dst + chunkSize, m.size - chunkSize));
      DivideStep(m.size - 1, chunkSize);
    } else {
      var x := m.size + chunkSize - 1;
      SameQuotient(x / chunkSize, x % chunkSize, 1, m.size - 1, chunkSize);
    }
  }

  lemma ChunksOfShort(m: Move)
    requires m.dst < m.src || m.size == 0
    ensures m.size <= m.src - m.dst || m.size == 0 ==> Chunks(m) == [m]
  {
  }

  /** The inner loop: the remaining chunks of a move. */
  method AppendChunks(disjunctMoves: seq<Move>, move: Move) returns (out: seq<Move>)
    requires move.dst < move.src && move.size > move.src - move.dst
    ensures out == disjunctMoves + Chunks(move)
  {
    out := disjunctMoves;
    var chunkSize := move.src - move.dst;
    var remainingSize: nat, currentSrc: nat, currentDst: nat := move.size, move.src, move.dst;
    while remainingSize > chunkSize
      invariant currentSrc - currentDst == chunkSize > 0 && remainingSize > 0
      invariant out + Chunks(Move(currentSrc, currentDst, remainingSize)) == disjunctMoves + Chunks(move)
    {
      out := out + [Move(currentSrc, currentDst, chunkSize)];
      remainingSize := remainingSize - chunkSize;
      currentSrc := currentSrc + chunkSize;
      currentDst := currentDst + chunkSize;
    }
    if remainingSize > 0 {
      out := out + [Move(currentSrc, currentDst, remainingSize)];
    }
  }

  /**
    Splits moves that do not go right into copies without overlap. There is no result exactly when some
    move is a non-empty one in place, on which the chunk count divides by zero.
   */
  method ToDisjunctCopies(moves: seq<Move>) returns (disjunctMoves: Option<seq<Move>>)
    requires forall k :: 0 <= k < |moves| ==> moves[k].dst <= moves[k].src
    ensures disjunctMoves == None <==> exists k :: 0 <= k < |moves| && InPlace(moves[k])
    ensures disjunctMoves.Some? ==>
              && (forall k :: 0 <= k < |moves| ==> moves[k].dst < moves[k].src || moves[k].size == 0)
              && disjunctMoves.value == Split(moves)
              && forall k :: 0 <= k < |disjunctMoves.value| ==> Disjoint(disjunctMoves.value[k])
  {
    hide Chunks;
    var out := [];
    for k := 0 to |moves|
      invariant forall j :: 0 <= j < k ==> !InPlace(moves[j])
      invariant out == Split(moves[..k])
    {
      var move := moves[k];
      var chunkSize := move.src - move.dst;
      var overlap := move.size > chunkSize;
      if overlap && chunkSize == 0 {
        return None;
      }
      SplitMore(moves, k);
      if !overlap {
        ChunksOfShort(move);
        out := out + [move];
        continue;
      }
      var numChunks := (move.size + chunkSize - 1) / chunkSize;
      ghost var before := |out|;
      out := AppendChunks(out, move);
      ChunkCount(move);
      assert |out| == before + numChunks;
    }
    assert moves[..|moves|] == moves;
    SplitDisjoint(moves);
    return Some(out);
  }

  lemma SplitMore(moves: seq<Move>, k: nat)
    requires k < |moves| && forall j :: 0 <= j <= k ==> moves[j].dst < moves[j].src || moves[j].size == 0
    ensures Split(moves[..k + 1]) == Split(moves[..k]) + Chunks(moves[k])
  {
    assert moves[..k + 1][..k] == moves[..k];
  }

  // ----- the moves of a compaction

  predicate InRange(nodes: seq<Node>, used: seq<nat>) {
    forall k :: 0 <= k < |used| ==> used[k] < |nodes|
  }

  /** Used nodes in address order, not overlapping. */
  ghost predicate InOrder(nodes: seq<Node>, used: seq<nat>) {
    && InRange(nodes, used)
    && (forall j, k :: 0 <= j < k < |used| ==> used[j] != used[k])
    && (forall k :: 0 < k < |used| ==> Before(nodes, used, k))
  }

  ghost predicate Before(nodes: seq<Node>, used: seq<nat>, k: nat)
    requires 0 < k < |used| && used[k - 1] < |nodes| && used[k] < |nodes|
  {
    nodes[used[k - 1]].dataOffset + nodes[used[k - 1]].dataSize <= nodes[used[k]].dataOffset
  }

  /** Where block k goes: behind the blocks before it. */
  function NewOffset(nodes: seq<Node>, used: seq<nat>, k: nat): nat
    requires k <= |used| && InRange(nodes, used)
  {
    if k == 0 then 0 else NewOffset(nodes, used, k - 1) + nodes[used[k - 1]].dataSize
  }

  /** Adds the move of one block, lengthening the last move when the block follows the one before it. */
  function AddMove(ms: seq<Move>, old_: nat, new_: nat, size: nat, contiguous: bool): seq<Move> {
    if old_ == new_ then ms
    else if contiguous && ms != [] then ms[|ms| - 1 := ms[|ms| - 1].(size := ms[|ms| - 1].size + size)]
    else ms + [Move(old_, new_, size)]
  }

  function OldEnd(nodes: seq<Node>, used: seq<nat>, k: nat): nat
    requires k <= |used| && InRange(nodes, used)
  {
    if k == 0 then 0 else nodes[used[k - 1]].dataOffset + nodes[used[k - 1]].dataSize
  }

  /** The merged moves of the first k blocks. */
  function MovesOf(nodes: seq<Node>, used: seq<nat>, k: nat): seq<Move>
    requires k <= |used| && InRange(nodes, used)
  {
    if k == 0 then []
    else
      var node := nodes[used[k - 1]];
      AddMove(MovesOf(nodes, used, k - 1), node.dataOffset, NewOffset(nodes, used, k - 1), node.dataSize,
              k > 1 && node.dataOffset == OldEnd(nodes, used, k - 1))
  }

  lemma {:induction false} OffsetsShrink(nodes: seq<Node>, used: seq<nat>, k: nat)
    requires InOrder(nodes, used) && k <= |used|
    ensures NewOffset(nodes, used, k) <= OldEnd(nodes, used, k)
    ensures k < |used| ==> OldEnd(nodes, used, k) <= nodes[used[k]].dataOffset
  {
    if k > 0 {
      OffsetsShrink(nodes, used, k - 1);
      if k < |used| {
        assert Before(nodes, used, k);
      }
    }
  }

  /** Every move goes strictly left, and if the last block moved, the last move ends where it ends. */
  ghost predicate Shape(ms: seq<Move>, oldEnd: nat, newEnd: nat) {
    && (forall i :: 0 <= i < |ms| ==> ms[i].dst < ms[i].src && ms[i].src + ms[i].size <= oldEnd)
    && (newEnd < oldEnd ==>
          && ms != []
          && ms[|ms| - 1].src + ms[|ms| - 1].size == oldEnd
          && ms[|ms| - 1].dst + ms[|ms| - 1].size == newEnd)
  }

  lemma AddMoveShape(ms: seq<Move>, oldEnd: nat, newEnd: nat, old_: nat, size: nat, contiguous: bool)
    requires Shape(ms, oldEnd, newEnd) && newEnd <= oldEnd <= old_
    requires contiguous ==> old_ == oldEnd
    ensures Shape(AddMove(ms, old_, newEnd, size, contiguous), old_ + size, newEnd + size)
  {
  }

  /** Merged or not, the effect is that of moving the block by itself. */
  lemma AddMoveExec<T>(
    mem: seq<T>, ms: seq<Move>, oldEnd: nat, newEnd: nat, old_: nat, size: nat, contiguous: bool)
    requires Shape(ms, oldEnd, newEnd) && newEnd <= oldEnd <= old_ && old_ + size <= |mem|
    requires contiguous ==> old_ == oldEnd
    ensures AllInBounds(ms, |mem|) && AllInBounds(AddMove(ms, old_, newEnd, size, contiguous), |mem|)
    ensures Exec(mem, AddMove(ms, old_, newEnd, size, contiguous)) == Moved(Exec(mem, ms), Move(old_, newEnd, size))
  {
    var block := Move(old_, newEnd, size);
    var ms' := AddMove(ms, old_, newEnd, size, contiguous);
    AddMoveShape(ms, oldEnd, newEnd, old_, size, contiguous);
    if old_ == newEnd {
    } else if contiguous {
      var n := |ms| - 1;
      var longer := Move(ms[n].src, ms[n].dst, ms[n].size + size);
      assert ms' == ms[..n] + [longer] && ms'[..n] == ms[..n];
      hide Shape, AddMove, Moved;
      SplitMove(Exec(mem, ms[..n]), longer, ms[n].size);
    } else {
      assert ms'[..|ms'| - 1] == ms;
    }
  }

  lemma {:induction false} MovesShape(nodes: seq<Node>, used: seq<nat>, k: nat)
    requires InOrder(nodes, used) && k <= |used|
    ensures Shape(MovesOf(nodes, used, k), OldEnd(nodes, used, k), NewOffset(nodes, used, k))
  {
    if k > 0 {
      MovesShape(nodes, used, k - 1);
      OffsetsShrink(nodes, used, k - 1);
      var node, newEnd := nodes[used[k - 1]], NewOffset(nodes, used, k - 1);
      hide Shape, AddMove;
      AddMoveShape(MovesOf(nodes, used, k - 1), OldEnd(nodes, used, k - 1), newEnd, node.dataOffset, node.dataSize,
                   k > 1 && node.dataOffset == OldEnd(nodes, used, k - 1));
    }
  }

  /** Moves i and i + 1 do not touch: blocks that could be moved together have been. */
  predicate Gap(ms: seq<Move>, i: nat)
    requires i + 1 < |ms|
  {
    ms[i].src + ms[i].size < ms[i + 1].src
  }

  ghost predicate Merged(ms: seq<Move>) {
    forall i :: 0 <= i < |ms| - 1 ==> Gap(ms, i)
  }

  lemma AddMoveMerged(ms: seq<Move>, oldEnd: nat, newEnd: nat, old_: nat, size: nat, contiguous: bool)
    requires Merged(ms) && Shape(ms, oldEnd, newEnd) && newEnd <= oldEnd <= old_
    requires contiguous ==> old_ == oldEnd
    requires !contiguous && ms != [] ==> old_ > oldEnd
    ensures Merged(AddMove(ms, old_, newEnd, size, contiguous))
  {
    var ms' := AddMove(ms, old_, newEnd, size, contiguous);
    forall i | 0 <= i < |ms'| - 1 ensures Gap(ms', i) {
      assert i < |ms| - 1 ==> Gap(ms, i);
    }
  }

  /** No two consecutive moves could be one. */
  lemma {:induction false} MovesMerged(nodes: seq<Node>, used: seq<nat>, k: nat)
    requires InOrder(nodes, used) && k <= |used|
    ensures Merged(MovesOf(nodes, used, k))
  {
    if k > 0 {
      MovesMerged(nodes, used, k - 1);
      MovesShape(nodes, used, k - 1);
      OffsetsShrink(nodes, used, k - 1);
      var node, newEnd, oldEnd := nodes[used[k - 1]], NewOffset(nodes, used, k - 1), OldEnd(nodes, used, k - 1);
      hide Shape, AddMove, Merged, InOrder;
      NoMovesAtFirst(nodes, used);
      AddMoveMerged(MovesOf(nodes, used, k - 1), oldEnd, newEnd, node.dataOffset, node.dataSize,
                    k > 1 && node.dataOffset == oldEnd);
    } else {
      assert MovesOf(nodes, used, 0) == [];
    }
  }

  lemma NoMovesAtFirst(nodes: seq<Node>, used: seq<nat>)
    requires InRange(nodes, used)
    ensures MovesOf(nodes, used, 0) == []
  {
  }

  /** After the moves of k blocks: they are in their new places, and nothing behind them has changed. */
  ghost predicate Compacted<T>(mem: seq<T>, mem': seq<T>, nodes: seq<Node>, used: seq<nat>, k: nat)
    requires k <= |used| && InRange(nodes, used)
  {
    && |mem'| == |mem|
    && (forall j :: 0 <= j < k ==> BlockMoved(mem, mem', nodes, used, j))
    && (forall x :: NewOffset(nodes, used, k) <= x < |mem| ==> mem'[x] == mem[x])
  }

  /** Block j's old bytes are at its new offset. */
  ghost predicate BlockMoved<T>(mem: seq<T>, mem': seq<T>, nodes: seq<Node>, used: seq<nat>, j: nat)
    requires j < |used| && InRange(nodes, used)
  {
    var node, to := nodes[used[j]], NewOffset(nodes, used, j);
    && node.dataOffset + node.dataSize <= |mem| && to + node.dataSize <= |mem'|
    && mem'[to..to + node.dataSize] == mem[node.dataOffset..node.dataOffset + node.dataSize]
  }

  lemma {:induction false} NewOffsetsGrow(nodes: seq<Node>, used: seq<nat>, j: nat, k: nat)
    requires j < k <= |used| && InRange(nodes, used)
    ensures NewOffset(nodes, used, j) + nodes[used[j]].dataSize <= NewOffset(nodes, used, k)
  {
    if j < k - 1 {
      NewOffsetsGrow(nodes, used, j, k - 1);
    }
  }

  /** A move fills its target with the old source and changes nothing else. */
  lemma MovedParts<T>(mem: seq<T>, m: Move, lo: nat, hi: nat)
    requires InBounds(m, |mem|) && lo <= hi <= m.dst
    ensures Moved(mem, m)[lo..hi] == mem[lo..hi]
    ensures Moved(mem, m)[m.dst..m.dst + m.size] == mem[m.src..m.src + m.size]
  {
  }

  lemma EarlierBlockStays<T>(mem: seq<T>, mem': seq<T>, nodes: seq<Node>, used: seq<nat>, m: Move, k: nat, j: nat)
    requires j < k < |used| && InRange(nodes, used)
    requires InBounds(m, |mem'|) && m.dst == NewOffset(nodes, used, k) && BlockMoved(mem, mem', nodes, used, j)
    ensures BlockMoved(mem, Moved(mem', m), nodes, used, j)
  {
    NewOffsetsGrow(nodes, used, j, k);
    var at := NewOffset(nodes, used, j);
    hide NewOffset, Moved;
    MovedParts(mem', m, at, at + nodes[used[j]].dataSize);
  }

  lemma NextBlockMoves<T>(mem: seq<T>, mem': seq<T>, nodes: seq<Node>, used: seq<nat>, m: Move, k: nat)
    requires k < |used| && InRange(nodes, used)
    requires m == Move(nodes[used[k]].dataOffset, NewOffset(nodes, used, k), nodes[used[k]].dataSize)
    requires |mem'| == |mem| && InBounds(m, |mem|)
    requires forall x :: m.src <= x < m.src + m.size ==> mem'[x] == mem[x]
    ensures BlockMoved(mem, Moved(mem', m), nodes, used, k)
  {
    assert mem'[m.src..m.src + m.size] == mem[m.src..m.src + m.size];
    hide Moved, NewOffset;
    MovedParts(mem', m, 0, 0);
  }

  /** Moving block k behind the compacted ones compacts one block more. */
  lemma CompactStep<T>(mem: seq<T>, mem': seq<T>, nodes: seq<Node>, used: seq<nat>, k: nat)
    requires InOrder(nodes, used) && k < |used| && Compacted(mem, mem', nodes, used, k)
    requires OldEnd(nodes, used, k + 1) <= |mem| && NewOffset(nodes, used, k) <= nodes[used[k]].dataOffset
    ensures
      var m := Move(nodes[used[k]].dataOffset, NewOffset(nodes, used, k), nodes[used[k]].dataSize);
      InBounds(m, |mem'|) && Compacted(mem, Moved(mem', m), nodes, used, k + 1)
  {
    hide BlockMoved, InOrder, NewOffset, OldEnd, Compacted, Moved;
    StepFacts(mem, mem', nodes, used, k);
    var m := Move(nodes[used[k]].dataOffset, NewOffset(nodes, used, k), nodes[used[k]].dataSize);
    var mem'' := Moved(mem', m);
    forall j: nat | j < k ensures BlockMoved(mem, mem'', nodes, used, j) {
      EarlierBlockStays(mem, mem', nodes, used, m, k, j);
    }
    NextBlockMoves(mem, mem', nodes, used, m, k);
    CompactedMore(mem, mem', nodes, used, k, m);
  }

  lemma StepFacts<T>(mem: seq<T>, mem': seq<T>, nodes: seq<Node>, used: seq<nat>, k: nat)
    requires InOrder(nodes, used) && k < |used| && Compacted(mem, mem', nodes, used, k)
    requires OldEnd(nodes, used, k + 1) <= |mem| && NewOffset(nodes, used, k) <= nodes[used[k]].dataOffset
    ensures InRange(nodes, used) && |mem'| == |mem|
    ensures InBounds(Move(nodes[used[k]].dataOffset, NewOffset(nodes, used, k), nodes[used[k]].dataSize), |mem|)
    ensures forall x :: nodes[used[k]].dataOffset <= x < |mem| ==> mem'[x] == mem[x]
    ensures forall j :: 0 <= j < k ==> BlockMoved(mem, mem', nodes, used, j)
  {
  }

  lemma CompactedMore<T>(mem: seq<T>, mem': seq<T>, nodes: seq<Node>, used: seq<nat>, k: nat, m: Move)
    requires InRange(nodes, used) && k < |used| && Compacted(mem, mem', nodes, used, k)
    requires m == Move(nodes[used[k]].dataOffset, NewOffset(nodes, used, k), nodes[used[k]].dataSize)
    requires InBounds(m, |mem'|)
    requires forall j :: 0 <= j <= k ==> BlockMoved(mem, Moved(mem', m), nodes, used, j)
    ensures Compacted(mem, Moved(mem', m), nodes, used, k + 1)
  {
    hide BlockMoved;
  }

  /** The merged moves, executed in order, compact the blocks. */
  lemma {:induction false} MovesCompact<T>(mem: seq<T>, nodes: seq<Node>, used: seq<nat>, k: nat)
    requires InOrder(nodes, used) && k <= |used| && OldEnd(nodes, used, k) <= |mem|
    ensures AllInBounds(MovesOf(nodes, used, k), |mem|)
    ensures Compacted(mem, Exec(mem, MovesOf(nodes, used, k)), nodes, used, k)
  {
    hide Shape, AddMove, Compacted, Moved, Exec, BlockMoved;
    if k == 0 {
      NothingMoved(mem, nodes, used);
    } else {
      OffsetsShrink(nodes, used, k - 1);
      MovesCompact(mem, nodes, used, k - 1);
      MovesShape(nodes, used, k - 1);
      var node, newEnd, oldEnd := nodes[used[k - 1]], NewOffset(nodes, used, k - 1), OldEnd(nodes, used, k - 1);
      var ms := MovesOf(nodes, used, k - 1);
      AddMoveExec(mem, ms, oldEnd, newEnd, node.dataOffset, node.dataSize, k > 1 && node.dataOffset == oldEnd);
      CompactStep(mem, Exec(mem, ms), nodes, used, k - 1);
    }
  }

  lemma NothingMoved<T>(mem: seq<T>, nodes: seq<Node>, used: seq<nat>)
    requires InRange(nodes, used)
    ensures MovesOf(nodes, used, 0) == [] && Compacted(mem, Exec(mem, []), nodes, used, 0)
  {
  }

  /** A report's new offsets and neighbour links. */
  ghost predicate Relocated(nodes: seq<Node>, nodes': seq<Node>, used: seq<nat>, j: nat, k: nat)
    requires j < k <= |used| && |nodes'| == |nodes| && InRange(nodes, used)
  {
    nodes'[used[j]] == nodes[used[j]].(
      dataOffset := NewOffset(nodes, used, j),
      neighborPrev := Prev(used, j),
      neighborNext := if j + 1 < k then used[j + 1] else nodes[used[j]].neighborNext)
  }

  /** What the loop writes for block k: its new offset, and the links between it and the block before. */
  function Relink(nodes: seq<Node>, used: seq<nat>, k: nat, offset: nat): (r: seq<Node>)
    requires k < |used| && InRange(nodes, used)
    ensures |r| == |nodes|
  {
    var ns := nodes[used[k] := nodes[used[k]].(dataOffset := offset, neighborPrev := Prev(used, k))];
    if k == 0 then ns else ns[used[k - 1] := ns[used[k - 1]].(neighborNext := used[k])]
  }

  /** The blocks before k are relocated, all other nodes are as they were. */
  ghost predicate RelocatedTo(nodes: seq<Node>, nodes': seq<Node>, used: seq<nat>, k: nat)
    requires k <= |used| && InRange(nodes, used)
  {
    && |nodes'| == |nodes|
    && (forall j :: 0 <= j < k ==> Relocated(nodes, nodes', used, j, k))
    && (forall j :: k <= j < |used| ==> nodes'[used[j]] == nodes[used[j]])
    && (forall i :: 0 <= i < |nodes| && i !in used ==> nodes'[i] == nodes[i])
  }

  lemma RelinkBlock(nodes: seq<Node>, nodes': seq<Node>, used: seq<nat>, k: nat, j: nat)
    requires InOrder(nodes, used) && j <= k < |used| && |nodes'| == |nodes|
    requires j < k ==> Relocated(nodes, nodes', used, j, k)
    requires nodes'[used[k]] == nodes[used[k]]
    ensures Relocated(nodes, Relink(nodes', used, k, NewOffset(nodes, used, k)), used, j, k + 1)
  {
    hide NewOffset, InOrder;
    DistinctIds(nodes, used, k, j);
  }

  lemma DistinctIds(nodes: seq<Node>, used: seq<nat>, k: nat, j: nat)
    requires InOrder(nodes, used) && j <= k < |used|
    ensures InRange(nodes, used)
    ensures j < k ==> used[j] != used[k]
    ensures j + 1 < k ==> used[j] != used[k - 1]
    ensures 0 < k ==> used[k - 1] != used[k]
  {
  }

  lemma RelinkStep(nodes: seq<Node>, nodes': seq<Node>, used: seq<nat>, k: nat)
    requires InOrder(nodes, used) && k < |used| && RelocatedTo(nodes, nodes', used, k)
    ensures RelocatedTo(nodes, Relink(nodes', used, k, NewOffset(nodes, used, k)), used, k + 1)
  {
    var next := Relink(nodes', used, k, NewOffset(nodes, used, k));
    var n := k + 1;
    assert forall i :: k < i < |used| ==> next[used[i]] == nodes'[used[i]];
    hide NewOffset, Relink, Relocated, InOrder;
    forall j: nat | j < n ensures Relocated(nodes, next, used, j, n) {
      RelinkBlock(nodes, nodes', used, k, j);
    }
    hide *;
    RelinkOthers(nodes', used, k, NewOffset(nodes, used, k));
  }

  lemma RelinkOthers(nodes: seq<Node>, used: seq<nat>, k: nat, offset: nat)
    requires k < |used| && InRange(nodes, used)
    ensures forall i :: 0 <= i < |nodes| && i !in used ==> Relink(nodes, used, k, offset)[i] == nodes[i]
  {
  }

  lemma NothingCompacted(nodes: seq<Node>, used: seq<nat>)
    requires InOrder(nodes, used)
    ensures InRange(nodes, used) && RelocatedTo(nodes, nodes, used, 0)
    ensures NewOffset(nodes, used, 0) == 0 == OldOffset(nodes, used, 0)
    ensures MovesOf(nodes, used, 0) == [] && Reports(nodes, used, 0) == []
  {
  }

  lemma BlocksKept(nodes: seq<Node>, nodes': seq<Node>, used: seq<nat>, k: nat)
    requires InOrder(nodes, used) && k < |used| && RelocatedTo(nodes, nodes', used, k)
    ensures |nodes'| == |nodes| && InRange(nodes', used) && used[k] < |nodes| && nodes'[used[k]] == nodes[used[k]]
    ensures k > 0 ==> used[k - 1] < |nodes| && nodes'[used[k - 1]].dataSize == nodes[used[k - 1]].dataSize
  {
    assert k > 0 ==> Relocated(nodes, nodes', used, k - 1, k);
  }

  /** The old offset of the block before k. */
  ghost function OldOffset(nodes: seq<Node>, used: seq<nat>, k: nat): nat
    requires k <= |used| && InRange(nodes, used)
  {
    if k == 0 then 0 else nodes[used[k - 1]].dataOffset
  }

  /** Each of the first k blocks with its new offset. */
  function Reports(nodes: seq<Node>, used: seq<nat>, k: nat): (r: seq<UpdatedAlloc>)
    requires k <= |used| && InRange(nodes, used)
  {
    if k == 0 then [] else Reports(nodes, used, k - 1) + [UpdatedAlloc(NewOffset(nodes, used, k - 1), used[k - 1])]
  }

  lemma NextBlock(nodes: seq<Node>, used: seq<nat>, k: nat)
    requires k < |used| && InRange(nodes, used)
    ensures NewOffset(nodes, used, k + 1) == NewOffset(nodes, used, k) + nodes[used[k]].dataSize
    ensures OldOffset(nodes, used, k + 1) == nodes[used[k]].dataOffset
    ensures k > 0 ==> OldOffset(nodes, used, k) == nodes[used[k - 1]].dataOffset
    ensures Reports(nodes, used, k + 1) == Reports(nodes, used, k) + [UpdatedAlloc(NewOffset(nodes, used, k), used[k])]
    ensures
      MovesOf(nodes, used, k + 1) ==
      AddMove(MovesOf(nodes, used, k), nodes[used[k]].dataOffset, NewOffset(nodes, used, k), nodes[used[k]].dataSize,
              k > 0 && nodes[used[k]].dataOffset == nodes[used[k - 1]].dataOffset + nodes[used[k - 1]].dataSize)
  {
  }

  /** With the last block's forward link cut, the blocks are compacted and linked to each other. */
  ghost predicate Linked(nodes: seq<Node>, nodes': seq<Node>, used: seq<nat>)
    requires InRange(nodes, used)
  {
    && |nodes'| == |nodes|
    && (forall k :: 0 <= k < |used| ==>
          nodes'[used[k]] == nodes[used[k]].(
            dataOffset := NewOffset(nodes, used, k), neighborPrev := Prev(used, k), neighborNext := Next(used, k)))
    && (forall i :: 0 <= i < |nodes| && i !in used ==> nodes'[i] == nodes[i])
  }

  lemma LastUnlinked(nodes: seq<Node>, nodes': seq<Node>, used: seq<nat>)
    requires InOrder(nodes, used) && used != [] && RelocatedTo(nodes, nodes', used, |used|)
    ensures |nodes'| == |nodes| && used[|used| - 1] < |nodes|
    ensures
      var last := used[|used| - 1];
      Linked(nodes, nodes'[last := nodes'[last].(neighborNext := INVALID)], used)
  {
    var last := used[|used| - 1];
    var next := nodes'[last := nodes'[last].(neighborNext := INVALID)];
    hide NewOffset;
    forall k | 0 <= k < |used|
      ensures next[used[k]] == nodes[used[k]].(
                dataOffset := NewOffset(nodes, used, k), neighborPrev := Prev(used, k), neighborNext := Next(used, k))
    {
      assert Relocated(nodes, nodes', used, k, |used|);
      assert k < |used| - 1 ==> used[k] != last;
    }
  }

  /**
    Moves the used blocks, given in address order, to the left end. The merged moves put every
    block's bytes at its reported offset, and splitting them first gives the same memory.
   */
  method CompactUsedNodes(nodes0: seq<Node>, used: seq<nat>)
    returns (nodes: seq<Node>, updatedAllocs: seq<UpdatedAlloc>, moves: seq<Move>, compactedOffset: nat)
    requires InOrder(nodes0, used) && used != []
    ensures compactedOffset == NewOffset(nodes0, used, |used|)
    ensures updatedAllocs == Reports(nodes0, used, |used|)
    ensures moves == MovesOf(nodes0, used, |used|)
    ensures Linked(nodes0, nodes, used)
  {
    hide RelocatedTo, InOrder, Relocated, NewOffset, MovesOf, OldEnd, Linked, Reports, InRange, OldOffset;
    NothingCompacted(nodes0, used);
    nodes, updatedAllocs, moves, compactedOffset := nodes0, [], [], 0;
    var prevNodeId := INVALID;
    var prevNodeOldOffset := 0;
    for k := 0 to |used|
      invariant RelocatedTo(nodes0, nodes, used, k) && compactedOffset == NewOffset(nodes0, used, k)
      invariant prevNodeId == (if k == 0 then INVALID else used[k - 1])
      invariant prevNodeOldOffset == OldOffset(nodes0, used, k)
      invariant updatedAllocs == Reports(nodes0, used, k)
      invariant moves == MovesOf(nodes0, used, k)
    {
      BlocksKept(nodes0, nodes, used, k);
      NextBlock(nodes0, used, k);
      RelinkStep(nodes0, nodes, used, k);
      var currentNodeId := used[k];
      var oldOffset, nodeSize := nodes[currentNodeId].dataOffset, nodes[currentNodeId].dataSize;
      updatedAllocs := updatedAllocs + [UpdatedAlloc(compactedOffset, currentNodeId)];
      if oldOffset != compactedOffset {
        var contiguous := prevNodeId != INVALID && oldOffset == prevNodeOldOffset + nodes[prevNodeId].dataSize;
        if contiguous && moves != [] {
          moves := moves[|moves| - 1 := moves[|moves| - 1].(size := moves[|moves| - 1].size + nodeSize)];
        } else {
          moves := moves + [Move(oldOffset, compactedOffset, nodeSize)];
        }
      }
      assert moves == MovesOf(nodes0, used, k + 1);
      ghost var was := nodes;
      nodes := nodes[currentNodeId := nodes[currentNodeId].(dataOffset := compactedOffset, neighborPrev := prevNodeId)];
      if prevNodeId != INVALID {
        nodes := nodes[prevNodeId := nodes[prevNodeId].(neighborNext := currentNodeId)];
      }
      assert nodes == Relink(was, used, k, compactedOffset);
      compactedOffset := compactedOffset + nodeSize;
      prevNodeId := currentNodeId;
      prevNodeOldOffset := oldOffset;
    }
    LastUnlinked(nodes0, nodes, used);
    nodes := nodes[prevNodeId := nodes[prevNodeId].(neighborNext := INVALID)];
  }

  /** Contents survive compaction, whether the moves are made as they are or split into copies first. */
  lemma CompactionKeepsContents<T>(mem: seq<T>, nodes: seq<Node>, used: seq<nat>)
    requires InOrder(nodes, used) && OldEnd(nodes, used, |used|) <= |mem|
    ensures
      var ms := MovesOf(nodes, used, |used|);
      && (forall k :: 0 <= k < |ms| ==> ms[k].dst < ms[k].src)
      && Merged(ms)
      && AllInBounds(ms, |mem|) && AllInBounds(Split(ms), |mem|)
      && Exec(mem, Split(ms)) == Exec(mem, ms)
      && forall j :: 0 <= j < |used| ==> BlockMoved(mem, Exec(mem, ms), nodes, used, j)
  {
    MovesShape(nodes, used, |used|);
    MovesCompact(mem, nodes, used, |used|);
    MovesMerged(nodes, used, |used|);
    SplitExec(mem, MovesOf(nodes, used, |used|));
  }
}
