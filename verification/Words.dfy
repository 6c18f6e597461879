/**
  Machine words as the sequence of their bits, least significant bit first, and
  the handful of unsigned operations the solver and the allocator build on.
 */
module Words {
  import opened Arithmetic

  type Word = seq<bool>

  /** The unsigned value of a word. */
  function ToNat(w: Word): nat {
    if w == [] then 0 else (if w[0] then 1 else 0) + 2 * ToNat(w[1..])
  }

  predicate IsZero(w: Word) {
    forall i :: 0 <= i < |w| ==> !w[i]
  }

  function Zero(n: nat): (w: Word)
    ensures |w| == n && IsZero(w)
  {
    seq(n, _ => false)
  }

  /** `T{1} << k` in a word of n bits. */
  function OneAt(n: nat, k: nat): (w: Word)
    ensures |w| == n && forall i :: 0 <= i < n ==> w[i] == (i == k)
  {
    seq(n, i => i == k)
  }

  /** The word with exactly the k low bits set. */
  function LowBits(n: nat, k: nat): (w: Word)
    ensures |w| == n && forall i :: 0 <= i < n ==> w[i] == (i < k)
  {
    seq(n, i => i < k)
  }

  function Or(a: Word, b: Word): (w: Word)
    requires |a| == |b|
    ensures |w| == |a| && forall i :: 0 <= i < |w| ==> w[i] == (a[i] || b[i])
  {
    seq(|a|, i requires 0 <= i < |a| => a[i] || b[i])
  }

  function And(a: Word, b: Word): (w: Word)
    requires |a| == |b|
    ensures |w| == |a| && forall i :: 0 <= i < |w| ==> w[i] == (a[i] && b[i])
  {
    seq(|a|, i requires 0 <= i < |a| => a[i] && b[i])
  }

  function Not(a: Word): (w: Word)
    ensures |w| == |a| && forall i :: 0 <= i < |w| ==> w[i] == !a[i]
  {
    seq(|a|, i requires 0 <= i < |a| => !a[i])
  }

  /** `x >> 1` for an unsigned x. */
  function ShiftRightOne(a: Word): (w: Word)
    ensures |w| == |a|
  {
    if a == [] then [] else a[1..] + [false]
  }

  /** `x << k`: the bits shifted out are lost. */
  function ShiftLeft(w: Word, k: nat): (r: Word)
    ensures |r| == |w| && forall i :: 0 <= i < |r| ==> r[i] == (i >= k && w[i - k])
  {
    seq(|w|, i requires 0 <= i < |w| => i >= k && w[i - k])
  }

  /** `x - 1` for an unsigned x: a borrow runs through the low zero bits. */
  function Dec(a: Word): (w: Word)
    ensures |w| == |a|
  {
    if a == [] then []
    else if a[0] then [false] + a[1..]
    else [true] + Dec(a[1..])
  }

  /** Dec is subtraction of one modulo 2 to the word width. */
  lemma {:induction false} DecSubtractsOne(a: Word)
    ensures ToNat(Dec(a)) == if ToNat(a) == 0 then Pow2(|a|) - 1 else ToNat(a) - 1
  {
    if a != [] && !a[0] {
      DecSubtractsOne(a[1..]);
      assert Dec(a)[1..] == Dec(a[1..]);
    } else if a != [] {
      assert Dec(a)[1..] == a[1..];
    }
  }

  /** `std::countr_zero`: the number of low zero bits, the width for zero. */
  function TrailingZeros(a: Word): (k: nat)
    ensures k <= |a|
    ensures forall i :: 0 <= i < k ==> !a[i]
    ensures k < |a| ==> a[k]
  {
    if a == [] || a[0] then 0
    else
      var k := 1 + TrailingZeros(a[1..]);
      assert forall i :: 1 <= i < k ==> a[i] == a[1..][i - 1];
      k
  }

  /** The index of the highest set bit of a nonzero word (`bits - 1 - countl_zero`). */
  function TopBit(a: Word): (k: nat)
    requires !IsZero(a)
    ensures k < |a| && a[k]
    ensures forall i :: k < i < |a| ==> !a[i]
  {
    if a[|a| - 1] then |a| - 1 else TopBit(a[..|a| - 1])
  }

  /** `(1 << k) - 1` has exactly the k low bits set. */
  lemma {:induction false} LowMaskBits(n: nat, k: nat)
    requires k < n
    ensures forall i :: 0 <= i < n ==> Dec(OneAt(n, k))[i] == (i < k)
  {
    if k > 0 {
      assert OneAt(n, k)[1..] == OneAt(n - 1, k - 1);
      LowMaskBits(n - 1, k - 1);
    }
  }

  lemma {:induction false} ToNatInjective(a: Word, b: Word)
    requires |a| == |b| && ToNat(a) == ToNat(b)
    ensures a == b
  {
    if a != [] {
      ToNatInjective(a[1..], b[1..]);
      assert a == [a[0]] + a[1..] && b == [b[0]] + b[1..];
    }
  }

  /** A word whose bits from n upward are clear is below 2 to the n. */
  lemma {:induction false} ToNatBound(a: Word, n: nat)
    requires forall i :: n <= i < |a| ==> !a[i]
    ensures ToNat(a) < Pow2(n)
  {
    if a != [] {
      if n == 0 {
        assert !a[0];
        ToNatBound(a[1..], 0);
      } else {
        ToNatBound(a[1..], n - 1);
      }
    }
  }

  lemma {:induction false} ToNatAtLeast(a: Word, k: nat)
    requires k < |a| && a[k]
    ensures ToNat(a) >= Pow2(k)
  {
    if k > 0 {
      ToNatAtLeast(a[1..], k - 1);
    }
  }

  lemma OrZero(a: Word)
    ensures Or(a, Zero(|a|)) == a && Or(Zero(|a|), a) == a
  {
  }
}
