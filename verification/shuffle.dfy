/** round_robin_shuffle (implementation.c) and the fact that, on a buffer
    whose size is a power of two, it moves every element to a distinct slot. */
module Shuffle {
  import opened Bytes
  import Counting
  import opened Arithmetic

  /** Triangular number 0 + 1 + ... + k. */
  function Tri(k: nat): nat
  {
    if k == 0 then 0 else Tri(k - 1) + k
  }

  lemma {:induction false} TriClosedForm(k: nat)
    ensures 2 * Tri(k) == k * (k + 1)
  {
    if k > 0 {
      TriClosedForm(k - 1);
      assert (k - 1) * k + 2 * k == k * (k + 1);
    }
  }

  /** Slot that receives source element k in a buffer of the given size. */
  function Slot(k: nat, size: nat): nat
    requires size > 0
  {
    Tri(k) % size
  }

  lemma TriDifference(a: nat, b: nat)
    ensures (b - a) * (a + b + 1) == 2 * (Tri(b) - Tri(a))
  {
    TriClosedForm(a);
    TriClosedForm(b);
    assert (b - a) * (a + b + 1) == b * (b + 1) - a * (a + 1);
  }

  /** When two triangular numbers agree modulo 2^e, 2^(e+1) divides (b - a)(a + b + 1). */
  lemma TriCollision(e: nat, a: nat, b: nat) returns (q: int)
    requires Tri(a) % Pow2(e) == Tri(b) % Pow2(e)
    ensures (b - a) * (a + b + 1) == Pow2(e + 1) * q
  {
    var n := Pow2(e);
    q := Tri(b) / n - Tri(a) / n;
    ModEqualDiff(Tri(b), Tri(a), n);
    TriDifference(a, b);
    assert Pow2(e + 1) == 2 * n;
    assert (2 * n) * q == 2 * (n * q);
  }

  /** A product with an odd factor that 2^k divides has a factor of at least 2^k. */
  lemma OddProductFactorLarge(k: nat, d: int, s: int, q: int)
    requires d > 0 && s > 0 && (d % 2 == 1 || s % 2 == 1)
    requires d * s == Pow2(k) * q
    ensures d >= Pow2(k) || s >= Pow2(k)
  {
    var p := Pow2(k);
    if d % 2 == 1 {
      assert s * d == p * q;
      var m := OddFactor(k, s, d, q);
      MultipleAtLeast(p, m, s);
    } else {
      var m := OddFactor(k, d, s, q);
      MultipleAtLeast(p, m, d);
    }
  }

  /** For a < b < 2^e, both b - a and a + b + 1 lie strictly between 0 and
      2^(e+1), and one of them is odd. */
  lemma CollisionFactors(e: nat, a: nat, b: nat)
    requires a < b < Pow2(e)
    ensures 0 < b - a < Pow2(e + 1) && 0 < a + b + 1 < Pow2(e + 1)
    ensures (b - a) % 2 == 1 || (a + b + 1) % 2 == 1
  {
    assert Pow2(e + 1) == 2 * Pow2(e);
    assert (b - a) + (a + b + 1) == 2 * b + 1;
  }

  /** The slot map k -> k(k+1)/2 mod 2^e is injective on 0 .. 2^e - 1. */
  lemma SlotInjective(e: nat, a: nat, b: nat)
    requires a < b < Pow2(e)
    ensures Slot(a, Pow2(e)) != Slot(b, Pow2(e))
  {
    if Slot(a, Pow2(e)) == Slot(b, Pow2(e)) {
      var q := TriCollision(e, a, b);
      CollisionFactors(e, a, b);
      OddProductFactorLarge(e + 1, b - a, a + b + 1, q);
    }
  }

  /** The loop of round_robin_shuffle from iteration `index` on: element
      `index` is written at `newIndex`, the cursor advances by `shift`
      modulo the size, and `shift` is incremented, falling back to 1 when
      it reaches the size. */
  function ShuffleLoop(src: seq<uint8>, dst: seq<uint8>, index: nat, newIndex: nat, shift: nat): (r: seq<uint8>)
    requires |dst| == |src| && index <= |src| && newIndex < |src|
    ensures |r| == |src|
    decreases |src| - index
  {
    if index == |src| then dst
    else
      var next := if shift + 1 >= |src| then 1 else shift + 1;
      ShuffleLoop(src, dst[newIndex := src[index]], index + 1, (newIndex + shift) % |src|, next)
  }

  predicate IsPowerOfTwo(n: nat)
  {
    if n <= 1 then n == 1 else n % 2 == 0 && IsPowerOfTwo(n / 2)
  }

  lemma {:induction false} PowerOfTwoExponent(n: nat) returns (e: nat)
    requires IsPowerOfTwo(n)
    ensures n == Pow2(e)
  {
    if n == 1 {
      e := 0;
    } else {
      var e' := PowerOfTwoExponent(n / 2);
      e := e' + 1;
    }
  }

  function RoundRobinShuffle(src: seq<uint8>): (r: seq<uint8>)
    requires IsPowerOfTwo(|src|)
    ensures |r| == |src|
  {
    ShuffleLoop(src, seq(|src|, _ => 0), 0, 0, 1)
  }

  lemma {:induction false} ShuffleLoopPlaces(e: nat, src: seq<uint8>, dst: seq<uint8>, index: nat, newIndex: nat, shift: nat)
    requires |src| == Pow2(e) && |dst| == |src| && index <= |src| && newIndex < |src|
    requires index < |src| ==> newIndex == Slot(index, |src|)
    requires index + 1 < |src| ==> shift == index + 1
    requires forall j :: 0 <= j < index ==> dst[Slot(j, |src|)] == src[j]
    ensures forall k :: 0 <= k < |src| ==> ShuffleLoop(src, dst, index, newIndex, shift)[Slot(k, |src|)] == src[k]
    decreases |src| - index
  {
    var n := |src|;
    if index < n {
      var dst' := dst[newIndex := src[index]];
      var next := if shift + 1 >= n then 1 else shift + 1;
      var newIndex' := (newIndex + shift) % n;
      forall j | 0 <= j < index + 1
        ensures dst'[Slot(j, n)] == src[j]
      {
        if j < index {
          SlotInjective(e, j, index);
        }
      }
      if index + 1 < n {
        ModStep(Tri(index), index + 1, n);
      }
      ShuffleLoopPlaces(e, src, dst', index + 1, newIndex', next);
    }
  }

  lemma ShufflePlaces(src: seq<uint8>)
    requires IsPowerOfTwo(|src|)
    ensures forall k :: 0 <= k < |src| ==> RoundRobinShuffle(src)[Slot(k, |src|)] == src[k]
  {
    var e := PowerOfTwoExponent(|src|);
    var scratch: seq<uint8> := seq(|src|, _ => 0);
    assert Tri(0) == 0;
    assert Slot(0, |src|) == 0;
    ShuffleLoopPlaces(e, src, scratch, 0, 0, 1);
    assert RoundRobinShuffle(src) == ShuffleLoop(src, scratch, 0, 0, 1);
  }

  /** The slot map as a function value, for the counting lemmas. */
  ghost function SlotMap(size: nat): int -> int
    requires size > 0
  {
    k => if k >= 0 then Slot(k, size) else k
  }

  lemma SlotMapBijective(e: nat)
    ensures forall k :: 0 <= k < Pow2(e) ==> 0 <= SlotMap(Pow2(e))(k) < Pow2(e)
    ensures Counting.InjectiveOn(Counting.Range(Pow2(e)), SlotMap(Pow2(e)))
    ensures Counting.Image(Counting.Range(Pow2(e)), SlotMap(Pow2(e))) == Counting.Range(Pow2(e))
  {
    var n := Pow2(e);
    var f := SlotMap(n);
    forall x, y | x in Counting.Range(n) && y in Counting.Range(n) && f(x) == f(y)
      ensures x == y
    {
      if x < y {
        SlotInjective(e, x, y);
      } else if y < x {
        SlotInjective(e, y, x);
      }
    }
    Counting.InjectiveIsSurjective(f, n);
  }

  /** round_robin_shuffle rearranges its input: nothing is lost or duplicated. */
  lemma ShuffleIsRearrangement(src: seq<uint8>)
    requires IsPowerOfTwo(|src|)
    ensures multiset(RoundRobinShuffle(src)) == multiset(src)
  {
    var e := PowerOfTwoExponent(|src|);
    ShufflePlaces(src);
    SlotMapBijective(e);
    Counting.RearrangedMultiset(src, RoundRobinShuffle(src), SlotMap(|src|));
  }

  /** The placement k -> k(k+1)/2 mod size determines the result completely:
      every slot is written, so the uninitialised scratch buffer never shows. */
  lemma ShuffleUnique(src: seq<uint8>, t: seq<uint8>)
    requires IsPowerOfTwo(|src|) && |t| == |src|
    requires forall k :: 0 <= k < |src| ==> t[Slot(k, |src|)] == src[k]
    ensures t == RoundRobinShuffle(src)
  {
    var e := PowerOfTwoExponent(|src|);
    var n := |src|;
    var r := RoundRobinShuffle(src);
    ShufflePlaces(src);
    SlotMapBijective(e);
    forall j | 0 <= j < n
      ensures t[j] == r[j]
    {
      assert j in Counting.Range(n);
      var k :| k in Counting.Range(n) && SlotMap(n)(k) == j;
    }
  }
}
