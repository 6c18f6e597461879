/**
  The lock-free ring allocator as a state machine: any number of threads interleave the atomic
  loads and compare-exchanges of `alloc` and `free` on the shared head and tail. Positions and
  sizes are 64-bit words; a ring of `size` bytes maps position p to p % size.
 */
module RingAlloc {
  import opened Arithmetic

  const POS_RANGE := 0x1_0000_0000_0000_0000

  /** `uint64_t` */
  type pos_t = n: nat | n < POS_RANGE

  /** Unsigned 64-bit arithmetic. */
  function Word(x: int): pos_t {
    x % POS_RANGE
  }

  /** A successful allocation: the head it was made at, the byte range returned, and its cleanup token. */
  datatype Allocation = Allocation(start: pos_t, begin: nat, size: pos_t, end: pos_t)

  /** Where a thread is inside `alloc` or `free`, with the values it has loaded. */
  datatype Thread =
    | Idle
    | HeadLoaded(size: pos_t, head: pos_t)
    | TailLoaded(size: pos_t, head: pos_t, tail: pos_t)
    | Freeing(pos: pos_t, tail: pos_t)

  /** The shared state, the threads, and the log of all allocations made so far. */
  datatype Ring = Ring(size: pos_t, head: pos_t, tail: pos_t, threads: seq<Thread>, log: seq<Allocation>)

  datatype Step =
    | BeginAlloc(size: pos_t)
    | LoadTail
    | Refuse
    | Commit
    | RetryAlloc
    | BeginFree(index: nat)
    | EndFree
    | CommitFree
    | RetryFree

  // ----- the arithmetic of one attempt

  predicate Wraps(ring: pos_t, head: pos_t, size: pos_t)
    requires ring > 0
  {
    Word(head % ring + size) > ring
  }

  function Begin(ring: pos_t, head: pos_t, size: pos_t): nat
    requires ring > 0
  {
    if Wraps(ring, head, size) then 0 else head % ring
  }

  function TotalSize(ring: pos_t, head: pos_t, size: pos_t): pos_t
    requires ring > 0
  {
    if Wraps(ring, head, size) then Word(size + ring - head % ring) else size
  }

  /** `head + totalSize - tail > _size` */
  predicate TooBig(ring: pos_t, head: pos_t, total: pos_t, tail: pos_t) {
    Word(head + total - tail) > ring
  }

  /** The bytes an attempt takes up if no sum overflows: those asked for and the padding up to a wrap. */
  function Needed(ring: nat, head: nat, size: nat): nat
    requires ring > 0
  {
    if head % ring + size > ring then size + (ring - head % ring) else size
  }

  /** The attempt on words accepts exactly when the bytes needed are free, and then takes exactly these. */
  predicate Agrees(ring: pos_t, head: pos_t, tail: pos_t, size: pos_t)
    requires ring > 0
  {
    var total := TotalSize(ring, head, size);
    if head + Needed(ring, head, size) - tail > ring then TooBig(ring, head, total, tail)
    else
      && !TooBig(ring, head, total, tail) && total == Needed(ring, head, size)
      && Begin(ring, head, size) == if head % ring + size > ring then 0 else head % ring
  }

  /** The largest sizes make the sums of an attempt overflow; this is what a caller can check. */
  predicate Fits(ring: pos_t, size: pos_t) {
    size + 2 * ring < POS_RANGE
  }

  lemma FittingAttempt(ring: pos_t, head: pos_t, tail: pos_t, size: pos_t)
    requires ring > 0 && tail <= head <= tail + ring && Fits(ring, size)
    ensures Agrees(ring, head, tail, size)
    ensures TotalSize(ring, head, size) == Needed(ring, head, size)
  {
    var offset := head % ring;
    hide Fits;
    assert Word(offset + size) == offset + size;
    assert Word(size + ring - offset) == size + ring - offset;
    NoOverflow(head + Needed(ring, head, size) - tail);
  }

  lemma NoOverflow(x: nat)
    ensures x < POS_RANGE ==> Word(x) == x
  {
  }

  /** A size that does not fit is accepted: on a fresh ring, or on a ring in full use. */
  lemma UnfittingAttempt(ring: pos_t, size: pos_t)
    requires ring > 0 && 3 * ring < POS_RANGE && !Fits(ring, size)
    ensures
      var head: pos_t := if size + ring < POS_RANGE then ring else 0;
      var total := TotalSize(ring, head, size);
      && Begin(ring, head, size) == 0 && !TooBig(ring, head, total, 0)
      && Word(head + total) == size + head + ring - POS_RANGE
      && !Agrees(ring, head, 0, size)
  {
    if size + ring < POS_RANGE {
      Remainder(ring, 0, 1);
    }
  }

  /** For rings below a third of the word range, Fits is the exact condition under which no attempt goes wrong. */
  lemma AttemptExact(ring: pos_t, size: pos_t)
    requires ring > 0 && 3 * ring < POS_RANGE
    ensures
      (forall head: pos_t, tail: pos_t :: tail <= head <= tail + ring ==> Agrees(ring, head, tail, size))
      <==> Fits(ring, size)
  {
    if Fits(ring, size) {
      forall head: pos_t, tail: pos_t | tail <= head <= tail + ring ensures Agrees(ring, head, tail, size) {
        FittingAttempt(ring, head, tail, size);
      }
    } else {
      UnfittingAttempt(ring, size);
      var head: pos_t := if size + ring < POS_RANGE then ring else 0;
      assert !Agrees(ring, head, 0, size);
    }
  }

  /** A fresh ring of 100 bytes accepts the largest size; with 10 bytes in use, 2^64 - 5 moves its head back to 5. */
  lemma HugeSizesAccepted()
    ensures TotalSize(100, 0, POS_RANGE - 1) == 99 && !TooBig(100, 0, 99, 0)
    ensures TotalSize(100, 10, POS_RANGE - 5) == POS_RANGE - 5
    ensures !TooBig(100, 10, POS_RANGE - 5, 0) && Word(10 + (POS_RANGE - 5)) == 5
  {
  }

  // ----- the steps

  predicate Enabled(s: Ring, t: nat, step: Step)
    requires s.size > 0
  {
    t < |s.threads| &&
    match (s.threads[t], step)
    case (Idle, BeginAlloc(size)) => size > 0
    case (HeadLoaded(_, _), LoadTail) => true
    case (TailLoaded(size, head, tail), Refuse) => TooBig(s.size, head, TotalSize(s.size, head, size), tail)
    case (TailLoaded(size, head, tail), Commit) =>
      !TooBig(s.size, head, TotalSize(s.size, head, size), tail) && s.head == head
    case (TailLoaded(size, head, tail), RetryAlloc) => !TooBig(s.size, head, TotalSize(s.size, head, size), tail)
    case (Idle, BeginFree(index)) => index < |s.log|
    case (Freeing(pos, tail), EndFree) => !(tail < pos)
    case (Freeing(pos, tail), CommitFree) => tail < pos && s.tail == tail
    case (Freeing(pos, tail), RetryFree) => tail < pos
    case _ => false
  }

  function Apply(s: Ring, t: nat, step: Step): Ring
    requires s.size > 0 && Enabled(s, t, step)
  {
    var th := s.threads[t];
    match step
    case BeginAlloc(size) => s.(threads := s.threads[t := HeadLoaded(size, s.head)])
    case LoadTail => s.(threads := s.threads[t := TailLoaded(th.size, th.head, s.tail)])
    case Commit =>
      var total := TotalSize(s.size, th.head, th.size);
      var end := Word(th.head + total);
      var a := Allocation(th.head, Begin(s.size, th.head, th.size), th.size, end);
      s.(head := end, threads := s.threads[t := Idle], log := s.log + [a])
    case RetryAlloc => s.(threads := s.threads[t := HeadLoaded(th.size, s.head)])
    case BeginFree(index) => s.(threads := s.threads[t := Freeing(s.log[index].end, s.tail)])
    case CommitFree => s.(tail := th.pos, threads := s.threads[t := Idle])
    case RetryFree => s.(threads := s.threads[t := Freeing(th.pos, s.tail)])
    case Refuse => s.(threads := s.threads[t := Idle])
    case EndFree => s.(threads := s.threads[t := Idle])
  }

  ghost predicate Next(s: Ring, s': Ring) {
    s.size > 0 && exists t, step :: Enabled(s, t, step) && s' == Apply(s, t, step)
  }

  ghost predicate Init(s: Ring) {
    s.size > 0 && s.head == 0 && s.tail == 0 && s.log == [] && forall t :: 0 <= t < |s.threads| ==> s.threads[t] == Idle
  }

  ghost predicate Run(run: seq<Ring>) {
    run != [] && Init(run[0]) && forall k :: 0 <= k < |run| - 1 ==> Next(run[k], run[k + 1])
  }

  // ----- the invariant

  /** The bytes of a are positions [end - size, end), in one piece inside the buffer, after any padding. */
  ghost predicate Placed(ring: nat, a: Allocation)
    requires ring > 0
  {
    0 < a.size && a.start + a.size <= a.end && a.begin + a.size <= ring && (a.end - a.size) % ring == a.begin
  }

  ghost predicate ThreadOk(s: Ring, th: Thread) {
    match th
    case Idle => true
    case HeadLoaded(size, head) => size > 0 && head <= s.head && head <= s.tail + s.size
    case TailLoaded(size, head, tail) => size > 0 && head <= s.head && tail <= s.tail && head <= tail + s.size
    case Freeing(pos, tail) => tail <= s.tail && Boundary(s.log, pos)
  }

  /** pos is where some allocation ends, or the start. */
  ghost predicate Boundary(log: seq<Allocation>, pos: nat) {
    pos == 0 || exists k :: 0 <= k < |log| && log[k].end == pos
  }

  /** Allocation k starts where the one before it ends. */
  ghost predicate Follows(log: seq<Allocation>, k: nat)
    requires k < |log|
  {
    log[k].start == if k == 0 then 0 else log[k - 1].end
  }

  ghost predicate Tiles(ring: nat, log: seq<Allocation>, head: nat)
    requires ring > 0
  {
    && (forall k :: 0 <= k < |log| ==> Placed(ring, log[k]))
    && (forall k :: 0 <= k < |log| ==> Follows(log, k))
    && head == if log == [] then 0 else log[|log| - 1].end
  }

  ghost predicate Inv(s: Ring) {
    && s.size > 0
    && s.tail <= s.head <= s.tail + s.size
    && Tiles(s.size, s.log, s.head)
    && Boundary(s.log, s.tail)
    && forall t :: 0 <= t < |s.threads| ==> ThreadOk(s, s.threads[t])
  }

  /** What callers have to observe: every size asked for fits, and positions stay a lap below 2^64. */
  ghost predicate Usable(s: Ring) {
    Early(s) && forall t :: 0 <= t < |s.threads| ==> ThreadFits(s.size, s.threads[t])
  }

  ghost predicate Early(s: Ring) {
    s.head + s.size < POS_RANGE
  }

  ghost predicate ThreadFits(ring: pos_t, th: Thread) {
    match th
    case HeadLoaded(size, _) => Fits(ring, size)
    case TailLoaded(size, _, _) => Fits(ring, size)
    case _ => true
  }

  lemma {:induction false} EndsOrdered(ring: nat, log: seq<Allocation>, head: nat, j: nat, k: nat)
    requires ring > 0 && Tiles(ring, log, head) && j < k < |log|
    ensures log[j].end <= log[k].start < log[k].end <= head
    decreases |log| - j, k - j
  {
    if j + 1 < k {
      EndsOrdered(ring, log, head, j, k - 1);
    }
    assert Follows(log, k) && Placed(ring, log[k]);
    EndWithin(ring, log, head, k);
  }

  lemma {:induction false} EndWithin(ring: nat, log: seq<Allocation>, head: nat, k: nat)
    requires ring > 0 && Tiles(ring, log, head) && k < |log|
    ensures log[k].end <= head
    decreases |log| - k
  {
    if k + 1 < |log| {
      EndWithin(ring, log, head, k + 1);
      assert Follows(log, k + 1);
      assert Placed(ring, log[k + 1]);
    }
  }

  /** The range a successful attempt returns. */
  lemma CommitPlaced(ring: pos_t, head: pos_t, size: pos_t, begin: nat)
    requires ring > 0 && 0 < size && Needed(ring, head, size) <= ring && head + ring < POS_RANGE
    requires begin == if head % ring + size > ring then 0 else head % ring
    ensures Placed(ring, Allocation(head, begin, size, head + Needed(ring, head, size)))
  {
    if head % ring + size > ring {
      var lap := head / ring;
      assert head == lap * ring + head % ring;
      var p := head + (ring - head % ring);
      assert p == (lap + 1) * ring + 0;
      Remainder(ring, 0, lap + 1);
    }
  }

  /** What a thread about to commit has loaded. */
  lemma Committer(s: Ring, t: nat)
    requires Inv(s) && Usable(s) && Enabled(s, t, Commit)
    ensures s.size > 0 && t < |s.threads|
    ensures
      var th := s.threads[t];
      && th.TailLoaded? && th.size > 0 && Fits(s.size, th.size) && th.head == s.head
      && th.tail <= s.tail <= s.head <= th.tail + s.size && s.head + s.size < POS_RANGE
      && !TooBig(s.size, s.head, TotalSize(s.size, s.head, th.size), th.tail)
  {
    hide TotalSize, TooBig, Tiles, Boundary;
    assert ThreadOk(s, s.threads[t]) && ThreadFits(s.size, s.threads[t]);
  }

  /** A commit moves the head forward by the bytes needed, within a lap of the tail. */
  lemma CommitEffect(s: Ring, t: nat)
    requires Inv(s) && Usable(s) && Enabled(s, t, Commit)
    ensures s.threads[t].TailLoaded? && s.threads[t].size > 0
    ensures
      var s' := Apply(s, t, Commit);
      var a := s'.log[|s.log|];
      && s'.head == s.head + Needed(s.size, s.head, s.threads[t].size) <= s.tail + s.size
      && s'.log == s.log + [a] && a.start == s.head && a.end == s'.head && Placed(s.size, a)
  {
    hide TotalSize, TooBig, Begin, Wraps, Placed, Inv, Usable, Needed, Enabled, Fits;
    Committer(s, t);
    var th := s.threads[t];
    FittingAttempt(s.size, th.head, th.tail, th.size);
    CommitPlaced(s.size, s.head, th.size, Begin(s.size, s.head, th.size));
  }

  lemma StepKeepsLog(s: Ring, s': Ring)
    requires Inv(s) && Usable(s) && Next(s, s')
    ensures s'.size == s.size && s'.tail >= s.tail && s'.head >= s.head
    ensures |s.log| <= |s'.log| && s'.log[..|s.log|] == s.log
  {
    hide TotalSize, TooBig, Begin, Wraps, Placed, Tiles, Boundary, Usable, Needed;
    var t, step :| Enabled(s, t, step) && s' == Apply(s, t, step);
    if step == Commit {
      CommitEffect(s, t);
    }
  }

  lemma BoundaryWithin(ring: nat, log: seq<Allocation>, head: nat, pos: nat)
    requires ring > 0 && Tiles(ring, log, head) && Boundary(log, pos)
    ensures pos <= head
  {
    if pos != 0 {
      var k :| 0 <= k < |log| && log[k].end == pos;
      EndWithin(ring, log, head, k);
    }
  }

  lemma BoundaryStays(log: seq<Allocation>, log': seq<Allocation>, pos: nat)
    requires Boundary(log, pos) && |log| <= |log'| && log'[..|log|] == log
    ensures Boundary(log', pos)
  {
    if pos != 0 {
      var k :| 0 <= k < |log| && log[k].end == pos;
      assert log'[..|log|][k] == log'[k];
    }
  }

  lemma ThreadsStay(s: Ring, s': Ring, th: Thread)
    requires ThreadOk(s, th) && s'.size == s.size && s.head <= s'.head && s.tail <= s'.tail
    requires |s.log| <= |s'.log| && s'.log[..|s.log|] == s.log
    ensures ThreadOk(s', th)
  {
    if th.Freeing? {
      BoundaryStays(s.log, s'.log, th.pos);
    }
  }

  lemma TilesAppend(ring: nat, log: seq<Allocation>, head: nat, a: Allocation)
    requires ring > 0 && Tiles(ring, log, head) && Placed(ring, a) && a.start == head
    ensures Tiles(ring, log + [a], a.end)
  {
    hide Placed;
    var log' := log + [a];
    forall k | 0 <= k < |log'| ensures Placed(ring, log'[k]) && Follows(log', k) {
      if k < |log| {
        assert Placed(ring, log[k]) && Follows(log, k);
      }
    }
  }

  lemma AllThreadsStay(s: Ring, s': Ring, t: nat)
    requires t < |s.threads| && s'.threads == s.threads[t := Idle]
    requires forall u :: 0 <= u < |s.threads| ==> ThreadOk(s, s.threads[u])
    requires s'.size == s.size && s.head <= s'.head && s.tail <= s'.tail
    requires |s.log| <= |s'.log| && s'.log[..|s.log|] == s.log
    ensures forall u :: 0 <= u < |s'.threads| ==> ThreadOk(s', s'.threads[u])
  {
    forall u | 0 <= u < |s'.threads| ensures ThreadOk(s', s'.threads[u]) {
      if u != t {
        ThreadsStay(s, s', s.threads[u]);
      }
    }
  }

  lemma CommitKeeps(s: Ring, t: nat)
    requires Inv(s) && Usable(s) && Enabled(s, t, Commit)
    ensures Inv(Apply(s, t, Commit))
  {
    hide ThreadOk, Tiles, Boundary, Placed, TotalSize, Begin, TooBig, Usable, Needed;
    var s' := Apply(s, t, Commit);
    CommitEffect(s, t);
    TilesAppend(s.size, s.log, s.head, s'.log[|s.log|]);
    BoundaryStays(s.log, s'.log, s.tail);
    AllThreadsStay(s, s', t);
  }

  lemma OthersKeep(s: Ring, t: nat, step: Step)
    requires Inv(s) && Enabled(s, t, step) && step != Commit
    ensures Inv(Apply(s, t, step))
  {
    var s' := Apply(s, t, step);
    assert ThreadOk(s, s.threads[t]);
    if step.CommitFree? {
      BoundaryWithin(s.size, s.log, s.head, s.threads[t].pos);
    }
    forall u | 0 <= u < |s.threads| ensures ThreadOk(s', s'.threads[u]) {
      if u != t {
        ThreadsStay(s, s', s.threads[u]);
      } else if step.BeginFree? {
        assert s.log[step.index].end == s'.threads[u].pos;
      }
    }
  }

  /** Whatever the interleaving, the invariant holds in every state of every usable run. */
  lemma {:induction false} RunKeepsInv(run: seq<Ring>, k: nat)
    requires Run(run) && k < |run| && forall i :: 0 <= i < k ==> Usable(run[i])
    ensures Inv(run[k])
  {
    if k > 0 {
      RunKeepsInv(run, k - 1);
      var s, s' := run[k - 1], run[k];
      var t, step :| Enabled(s, t, step) && s' == Apply(s, t, step);
      hide Inv, Enabled, Apply, Usable;
      if step == Commit {
        CommitKeeps(s, t);
      } else {
        OthersKeep(s, t, step);
      }
    }
  }

  // ----- safety

  /** An allocation whose token no free has reached yet. */
  predicate Outstanding(s: Ring, k: nat) {
    k < |s.log| && s.log[k].end > s.tail
  }

  /** An outstanding allocation lies wholly after the tail. */
  lemma OutstandingAfterTail(s: Ring, k: nat)
    requires Inv(s) && Outstanding(s, k)
    ensures s.log[k].start >= s.tail
  {
    hide Placed, ThreadOk, Follows;
    if s.tail != 0 {
      var i :| 0 <= i < |s.log| && s.log[i].end == s.tail;
      if k < i {
        EndsOrdered(s.size, s.log, s.head, k, i);
      } else if i < k {
        EndsOrdered(s.size, s.log, s.head, i, k);
      }
    }
  }

  /** Two positions less than a lap apart share no byte. */
  lemma DistinctBytes(ring: nat, p: nat, q: nat)
    requires ring > 0 && p < q < p + ring
    ensures p % ring != q % ring
  {
    if p % ring == q % ring {
      var a, b := p / ring, q / ring;
      assert p == a * ring + p % ring && q == b * ring + q % ring;
      if a < b {
        MulBelow(a, b, ring);
      } else if b < a {
        MulBelow(b, a, ring);
      }
    }
  }

  lemma ByteOfPosition(ring: nat, a: Allocation, i: nat)
    requires ring > 0 && Placed(ring, a) && i < a.size
    ensures (a.end - a.size + i) % ring == a.begin + i
  {
    var p := a.end - a.size;
    var lap := p / ring;
    assert p == lap * ring + a.begin;
    Remainder(ring, a.begin + i, lap);
  }

  /** No byte belongs to two outstanding allocations, and every byte lies in the buffer. */
  lemma OutstandingDisjoint(s: Ring, j: nat, k: nat, byte: nat)
    requires Inv(s) && j < k && Outstanding(s, j) && Outstanding(s, k)
    ensures s.log[j].begin + s.log[j].size <= s.size && s.log[k].begin + s.log[k].size <= s.size
    ensures !(s.log[j].begin <= byte < s.log[j].begin + s.log[j].size
              && s.log[k].begin <= byte < s.log[k].begin + s.log[k].size)
  {
    hide ThreadOk, Boundary, Follows;
    var a, b := s.log[j], s.log[k];
    assert Placed(s.size, a) && Placed(s.size, b);
    if a.begin <= byte < a.begin + a.size && b.begin <= byte < b.begin + b.size {
      OutstandingAfterTail(s, j);
      EndsOrdered(s.size, s.log, s.head, j, k);
      ByteOfPosition(s.size, a, byte - a.begin);
      ByteOfPosition(s.size, b, byte - b.begin);
      DistinctBytes(s.size, a.end - a.size + (byte - a.begin), b.end - b.size + (byte - b.begin));
    }
  }

  predicate InRange(a: Allocation, byte: int) {
    a.begin <= byte < a.begin + a.size
  }

  /** Every range ever returned lies in the buffer, and those not yet freed share no byte. */
  ghost predicate Safe(s: Ring) {
    && s.tail <= s.head <= s.tail + s.size
    && (forall k :: 0 <= k < |s.log| ==> s.log[k].begin + s.log[k].size <= s.size)
    && forall a, b, byte :: 0 <= a < b && Outstanding(s, a) && Outstanding(s, b) ==>
         !(InRange(s.log[a], byte) && InRange(s.log[b], byte))
  }

  lemma InvIsSafe(s: Ring)
    requires Inv(s)
    ensures Safe(s)
  {
    hide ThreadOk, Boundary, Follows;
    forall k | 0 <= k < |s.log| ensures s.log[k].begin + s.log[k].size <= s.size {
      assert Placed(s.size, s.log[k]);
    }
    forall a, b, byte | 0 <= a < b && Outstanding(s, a) && Outstanding(s, b)
      ensures !(InRange(s.log[a], byte) && InRange(s.log[b], byte))
    {
      if byte >= 0 {
        OutstandingDisjoint(s, a, b, byte);
      }
    }
  }

  /**
    Safety of every usable run: the tail never moves back, never passes the head, the head is never more
    than a lap ahead, ranges lie in the buffer, and allocations not yet freed share no byte.
   */
  lemma {:induction false} RunSafe(run: seq<Ring>, i: nat, k: nat)
    requires Run(run) && i <= k < |run| && forall j :: 0 <= j < k ==> Usable(run[j])
    ensures run[i].tail <= run[k].tail && Safe(run[k])
    decreases k
  {
    hide Inv, Safe, Next, Usable;
    RunKeepsInv(run, k);
    InvIsSafe(run[k]);
    if i < k {
      RunSafe(run, i, k - 1);
      RunKeepsInv(run, k - 1);
      assert Next(run[k - 1], run[k]);
      StepKeepsLog(run[k - 1], run[k]);
    }
  }

  // ----- which sizes are safe

  /** The threads only ask for sizes up to the ring's, or for this one. */
  ghost predicate Asks(s: Ring, size: pos_t) {
    Early(s) && forall t :: 0 <= t < |s.threads| ==> ThreadAsks(s.size, s.threads[t], size)
  }

  ghost predicate ThreadAsks(ring: pos_t, th: Thread, size: pos_t) {
    match th
    case HeadLoaded(asked, _) => asked <= ring || asked == size
    case TailLoaded(asked, _, _) => asked <= ring || asked == size
    case _ => true
  }

  ghost predicate RunAsks(run: seq<Ring>, ring: pos_t, size: pos_t) {
    run != [] && Run(run) && run[0].size == ring && forall k :: 0 <= k < |run| ==> Asks(run[k], size)
  }

  ghost predicate SafeToAsk(ring: pos_t, size: pos_t) {
    forall run :: RunAsks(run, ring, size) ==> Safe(run[|run| - 1])
  }

  lemma {:induction false} SameRing(run: seq<Ring>, k: nat)
    requires Run(run) && k < |run|
    ensures run[k].size == run[0].size
  {
    if k > 0 {
      SameRing(run, k - 1);
      assert Next(run[k - 1], run[k]);
    }
  }

  lemma RunMore(run: seq<Ring>, ring: pos_t, size: pos_t, t: nat, step: Step, s: Ring)
    requires RunAsks(run, ring, size) && ring > 0 && Asks(s, size)
    requires run[|run| - 1].size == ring && Enabled(run[|run| - 1], t, step) && s == Apply(run[|run| - 1], t, step)
    ensures RunAsks(run + [s], ring, size)
  {
    hide Enabled, Apply, Asks;
    var longer := run + [s];
    forall k | 0 <= k < |longer| - 1 ensures Next(longer[k], longer[k + 1]) {
      if k < |run| - 1 {
        assert Next(run[k], run[k + 1]);
      }
    }
  }

  /** The state after one thread has made an allocation undisturbed. */
  function After(s: Ring, asked: pos_t): Ring
    requires s.size > 0
  {
    var end := Word(s.head + TotalSize(s.size, s.head, asked));
    s.(head := end, log := s.log + [Allocation(s.head, Begin(s.size, s.head, asked), asked, end)])
  }

  lemma RunAllocates(run: seq<Ring>, ring: pos_t, size: pos_t, asked: pos_t) returns (longer: seq<Ring>)
    requires RunAsks(run, ring, size) && ring > 0
    requires run[|run| - 1].size == ring && run[|run| - 1].threads == [Idle]
    requires 0 < asked && (asked <= ring || asked == size)
    requires
      var s := run[|run| - 1];
      !TooBig(ring, s.head, TotalSize(ring, s.head, asked), s.tail) && After(s, asked).head + ring < POS_RANGE
    ensures RunAsks(longer, ring, size) && longer[|longer| - 1] == After(run[|run| - 1], asked)
  {
    hide TooBig, TotalSize, Begin, Wraps, Run;
    var s := run[|run| - 1];
    assert Early(s) by {
      assert Asks(s, size);
    }
    var s1 := Apply(s, 0, BeginAlloc(asked));
    assert s1 == s.(threads := [HeadLoaded(asked, s.head)]);
    RunMore(run, ring, size, 0, BeginAlloc(asked), s1);
    var s2 := Apply(s1, 0, LoadTail);
    assert s2 == s.(threads := [TailLoaded(asked, s.head, s.tail)]);
    RunMore(run + [s1], ring, size, 0, LoadTail, s2);
    var s3 := Apply(s2, 0, Commit);
    assert s3 == After(s, asked);
    RunMore(run + [s1] + [s2], ring, size, 0, Commit, s3);
    longer := run + [s1] + [s2] + [s3];
  }

  /** A size that does not fit is accepted in some run, and the range returned is larger than the buffer. */
  lemma UnsafeRun(ring: pos_t, size: pos_t) returns (run: seq<Ring>)
    requires ring > 0 && 3 * ring < POS_RANGE && !Fits(ring, size)
    ensures RunAsks(run, ring, size) && !Safe(run[|run| - 1])
  {
    hide TooBig, TotalSize, Begin, Wraps;
    var start := Ring(ring, 0, 0, [Idle], []);
    run := [start];
    UnfittingAttempt(ring, size);
    if size + ring < POS_RANGE {
      WholeRing(ring);
      run := RunAllocates(run, ring, size, ring);
    }
    var s := run[|run| - 1];
    run := RunAllocates(run, ring, size, size);
    assert run[|run| - 1].log[|s.log|].size > ring;
  }

  /** A fresh ring can be allocated whole. */
  lemma WholeRing(ring: pos_t)
    requires ring > 0 && 3 * ring < POS_RANGE
    ensures TotalSize(ring, 0, ring) == ring && !TooBig(ring, 0, ring, 0) && Word(0 + ring) == ring
  {
  }

  /** For rings below a third of the word range: runs that ask for a size are safe exactly when it fits. */
  lemma SafeExactlyWhenFitting(ring: pos_t, size: pos_t)
    requires ring > 0 && 3 * ring < POS_RANGE
    ensures SafeToAsk(ring, size) <==> Fits(ring, size)
  {
    hide Run, Safe;
    if Fits(ring, size) {
      forall run | RunAsks(run, ring, size) ensures Safe(run[|run| - 1]) {
        AskingIsUsable(run, ring, size);
        RunSafe(run, |run| - 1, |run| - 1);
      }
    } else {
      var run := UnsafeRun(ring, size);
    }
  }

  lemma AskingIsUsable(run: seq<Ring>, ring: pos_t, size: pos_t)
    requires RunAsks(run, ring, size) && 3 * ring < POS_RANGE && Fits(ring, size)
    ensures run != [] && forall k :: 0 <= k < |run| ==> Usable(run[k])
  {
    assert run != [];
    forall k | 0 <= k < |run| ensures Usable(run[k]) {
      SameRing(run, k);
      assert Asks(run[k], size);
      forall t | 0 <= t < |run[k].threads| ensures ThreadFits(ring, run[k].threads[t]) {
        assert ThreadAsks(ring, run[k].threads[t], size);
      }
    }
  }

  // ----- exactness

  function MaxAlloc(s: Ring): nat
    requires s.size > 0 && s.tail <= s.head
  {
    if s.head - s.tail >= s.size then 0
    else
      var actualHead := s.head % s.size;
      var actualTail := s.tail % s.size;
      if actualHead < actualTail then actualTail - actualHead
      else
        var naiveMax := s.size - actualHead;
        var wrapMax := actualTail;
        if naiveMax >= wrapMax then naiveMax else wrapMax
  }

  /** head and tail are less than a lap apart, so their offsets tell their distance. */
  lemma LapDistance(ring: nat, head: nat, tail: nat)
    requires ring > 0 && tail <= head < tail + ring
    ensures head - tail ==
      if head % ring < tail % ring then head % ring + ring - tail % ring else head % ring - tail % ring
  {
    var a, b := tail / ring, head / ring;
    assert tail == a * ring + tail % ring && head == b * ring + head % ring;
    if b < a {
      MulBelow(b, a, ring);
    } else if a < b {
      assert (a + 1) * ring == a * ring + ring;
      if a + 1 < b {
        MulBelow(a + 1, b, ring);
      }
    }
  }

  /**
    When no other thread interferes, an allocation of a size that fits and that has loaded the current
    head and tail commits exactly for the sizes up to max_alloc, and is refused for all others.
   */
  lemma AllocExact(s: Ring, t: nat, size: pos_t)
    requires Inv(s) && Fits(s.size, size)
    requires t < |s.threads| && s.threads[t] == TailLoaded(size, s.head, s.tail)
    ensures Enabled(s, t, Commit) <==> size <= MaxAlloc(s)
    ensures Enabled(s, t, Refuse) <==> size > MaxAlloc(s)
  {
    hide TotalSize, TooBig, Begin, Wraps, Tiles, Boundary;
    assert ThreadOk(s, s.threads[t]);
    FittingAttempt(s.size, s.head, s.tail, size);
    if s.head - s.tail < s.size {
      LapDistance(s.size, s.head, s.tail);
    }
  }

  /** Thread t is about to decide on a size with the current head and tail. */
  ghost predicate Deciding(s: Ring, t: nat, ring: pos_t, size: pos_t) {
    Inv(s) && s.size == ring && t < |s.threads| && s.threads[t] == TailLoaded(size, s.head, s.tail)
  }

  /** For rings below a third of the word range: that promise holds in every state exactly when the size fits. */
  lemma PromiseExact(ring: pos_t, size: pos_t)
    requires ring > 0 && 3 * ring < POS_RANGE && size > 0
    ensures
      (forall s, t :: Deciding(s, t, ring, size) ==> (Enabled(s, t, Commit) <==> size <= MaxAlloc(s)))
      <==> Fits(ring, size)
  {
    if Fits(ring, size) {
      forall s, t | Deciding(s, t, ring, size) ensures Enabled(s, t, Commit) <==> size <= MaxAlloc(s) {
        AllocExact(s, t, size);
      }
    } else {
      var s := BrokenPromise(ring, size);
      assert Deciding(s, 0, ring, size);
    }
  }

  lemma BrokenPromise(ring: pos_t, size: pos_t) returns (s: Ring)
    requires ring > 0 && 3 * ring < POS_RANGE && !Fits(ring, size)
    ensures Deciding(s, 0, ring, size) && Enabled(s, 0, Commit) && size > MaxAlloc(s)
  {
    hide TooBig, TotalSize, Begin, Wraps;
    UnfittingAttempt(ring, size);
    if size + ring < POS_RANGE {
      Remainder(ring, 0, 0);
      s := Ring(ring, ring, 0, [TailLoaded(size, ring, 0)], [Allocation(0, 0, ring, ring)]);
      assert s.log[0].end == ring;
    } else {
      s := Ring(ring, 0, 0, [TailLoaded(size, 0, 0)], []);
    }
  }

  /** An undisturbed call reaches that decision from an idle thread in two loads. */
  lemma UndisturbedAlloc(s: Ring, t: nat, size: pos_t)
    requires Inv(s) && t < |s.threads| && s.threads[t] == Idle && size > 0 && Fits(s.size, size)
    ensures Enabled(s, t, BeginAlloc(size))
    ensures var s1 := Apply(s, t, BeginAlloc(size));
            Enabled(s1, t, LoadTail) &&
            var s2 := Apply(s1, t, LoadTail);
            && MaxAlloc(s2) == MaxAlloc(s)
            && (Enabled(s2, t, Commit) <==> size <= MaxAlloc(s))
            && (Enabled(s2, t, Refuse) <==> size > MaxAlloc(s))
  {
    hide TotalSize, TooBig, Inv;
    OthersKeep(s, t, BeginAlloc(size));
    var s1 := Apply(s, t, BeginAlloc(size));
    OthersKeep(s1, t, LoadTail);
    AllocExact(Apply(s1, t, LoadTail), t, size);
  }

  /** So does a retry: it reloads the head, and the tail after it. */
  lemma UndisturbedRetry(s: Ring, t: nat, size: pos_t)
    requires Inv(s) && t < |s.threads| && s.threads[t].TailLoaded? && s.threads[t].size == size
    requires Fits(s.size, size) && Enabled(s, t, RetryAlloc)
    ensures var s1 := Apply(s, t, RetryAlloc);
            Enabled(s1, t, LoadTail) &&
            var s2 := Apply(s1, t, LoadTail);
            && MaxAlloc(s2) == MaxAlloc(s)
            && (Enabled(s2, t, Commit) <==> size <= MaxAlloc(s))
            && (Enabled(s2, t, Refuse) <==> size > MaxAlloc(s))
  {
    hide TotalSize, TooBig, Inv;
    OthersKeep(s, t, RetryAlloc);
    var s1 := Apply(s, t, RetryAlloc);
    OthersKeep(s1, t, LoadTail);
    AllocExact(Apply(s1, t, LoadTail), t, size);
  }

  // ----- what free does

  /** The state s' is s with everything up to position pos freed. */
  ghost predicate FreedUpTo(s: Ring, s': Ring, pos: pos_t) {
    && s'.size == s.size && s'.head == s.head && s'.log == s.log
    && s'.tail == if s.tail < pos then pos else s.tail
  }

  /** Cumulative: the allocation at k and those before it are no longer outstanding, those after it as before. */
  lemma FreedIsCumulative(s: Ring, s': Ring, k: nat)
    requires Inv(s) && k < |s.log| && FreedUpTo(s, s', s.log[k].end)
    ensures forall j :: 0 <= j <= k ==> !Outstanding(s', j)
    ensures forall j :: k < j ==> (Outstanding(s', j) <==> Outstanding(s, j))
  {
    hide Placed, ThreadOk, Follows;
    forall j | 0 <= j < |s.log| && j != k
      ensures if j < k then s.log[j].end <= s.log[k].end else s.log[k].end < s.log[j].end
    {
      if j < k {
        EndsOrdered(s.size, s.log, s.head, j, k);
      } else {
        EndsOrdered(s.size, s.log, s.head, k, j);
      }
    }
  }

  /** A free that ends, by its compare-and-swap or because others have freed as far, has freed up to its token. */
  lemma FreeEnds(s: Ring, t: nat, step: Step)
    requires Inv(s) && Enabled(s, t, step) && (step == CommitFree || step == EndFree)
    ensures s.threads[t].Freeing? && Apply(s, t, step).threads[t] == Idle
    ensures FreedUpTo(s, Apply(s, t, step), s.threads[t].pos)
  {
    assert ThreadOk(s, s.threads[t]);
  }

  /** Only a thread's own steps change where it is. */
  lemma OwnStep(s: Ring, s': Ring, t: nat) returns (step: Step)
    requires Next(s, s') && t < |s.threads| && t < |s'.threads| && s'.threads[t] != s.threads[t]
    ensures Enabled(s, t, step) && s' == Apply(s, t, step)
  {
    var u: nat, other :| Enabled(s, u, other) && s' == Apply(s, u, other);
    step := other;
  }

  lemma {:induction false} SameThreads(run: seq<Ring>, k: nat)
    requires Run(run) && k < |run|
    ensures |run[k].threads| == |run[0].threads|
  {
    if k > 0 {
      SameThreads(run, k - 1);
      assert Next(run[k - 1], run[k]);
    }
  }

  /**
    In every usable run, whenever thread t comes back from freeing allocation k, that one and those
    before it are no longer outstanding, those after it are if they were, and head and log are untouched.
   */
  lemma RunFrees(run: seq<Ring>, i: nat, t: nat, k: nat)
    requires Run(run) && i + 1 < |run| && forall j :: 0 <= j <= i ==> Usable(run[j])
    requires t < |run[0].threads| && k < |run[i].log|
    ensures t < |run[i].threads| && t < |run[i + 1].threads|
    ensures
      var s, s' := run[i], run[i + 1];
      s.threads[t].Freeing? && s.threads[t].pos == s.log[k].end && s'.threads[t] == Idle ==>
        && FreedUpTo(s, s', s.log[k].end)
        && (forall j :: 0 <= j <= k ==> !Outstanding(s', j))
        && (forall j :: k < j ==> (Outstanding(s', j) <==> Outstanding(s, j)))
  {
    hide Inv, FreedUpTo, Usable;
    SameThreads(run, i);
    SameThreads(run, i + 1);
    RunKeepsInv(run, i);
    var s, s' := run[i], run[i + 1];
    assert Next(s, s');
    if s.threads[t].Freeing? && s.threads[t].pos == s.log[k].end && s'.threads[t] == Idle {
      var step := OwnStep(s, s', t);
      FreeEnds(s, t, step);
      FreedIsCumulative(s, s', k);
    }
  }

  /** A free that nobody disturbs ends in one more step, also after a failed compare-and-swap. */
  lemma UndisturbedFree(s: Ring, t: nat, step: Step)
    requires Inv(s) && Enabled(s, t, step) && (step.BeginFree? || step == RetryFree)
    ensures
      var s1 := Apply(s, t, step);
      && s1.threads[t].Freeing?
      && s1.threads[t].pos == (if step.BeginFree? then s.log[step.index].end else s.threads[t].pos)
      && var last := if s1.tail < s1.threads[t].pos then CommitFree else EndFree;
      && Enabled(s1, t, last) && FreedUpTo(s, Apply(s1, t, last), s1.threads[t].pos)
  {
  }

  /** What max_alloc is when nothing is allocated at a position. */
  function WholeRoom(ring: nat, pos: nat): nat
    requires ring > 0
  {
    if ring - pos % ring >= pos % ring then ring - pos % ring else pos % ring
  }

  /** After an undisturbed free of the newest allocation, all the room there can be at that head is back. */
  lemma FreeingNewest(s: Ring, s': Ring)
    requires Inv(s) && s.log != [] && FreedUpTo(s, s', s.log[|s.log| - 1].end)
    ensures s'.tail == s'.head == s.head && s'.size > 0
    ensures MaxAlloc(s') == WholeRoom(s.size, s.head)
    ensures forall j :: 0 <= j ==> !Outstanding(s', j)
  {
    FreedIsCumulative(s, s', |s.log| - 1);
  }
}
