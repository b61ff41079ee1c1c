/** The power-of-two test `is_power_of_two` in its four integer flavours:
    unsigned and signed, 32 and 64 bits. */
module PowerOfTwo {
  import opened Words

  /** `x != 0 && (x & (x - 1)) == 0` on an unsigned word; this is the uint32
      overload at width 32 and the uint64 overload at width 64. */
  predicate IsPowerOfTwo(x: Word)
    requires |x| > 0
  {
    x != Zeros(|x|) && And(x, Sub(x, Lit(1, |x|))) == Zeros(|x|)
  }

  /** The least value of the signed integer type of the given width. */
  function MinSigned(w: Width): int {
    0 - Pow2(w.Size() - 1)
  }

  predicate InSignedRange(w: Width, x: int) {
    MinSigned(w) <= x < Pow2(w.Size() - 1)
  }

  /** `x != 0 && (x & (x - 1)) == 0` on int32 (W32) or int64 (W64): `x - 1` is
      signed subtraction and `&` acts on the two's-complement patterns. At the
      least value `x - 1` overflows, which C++ leaves undefined. */
  predicate IsPowerOfTwoSigned(w: Width, x: int)
    requires InSignedRange(w, x) && x != MinSigned(w)
  {
    x != 0 && And(Lit(x, w.Size()), Lit(x - 1, w.Size())) == Zeros(w.Size())
  }

  // ---------------------------------------------------------------------------
  // Subtracting one, bit by bit

  /** The index of the least significant set bit of a non-zero word. */
  function LowestSetBit(x: Word): (t: nat)
    requires x != Zeros(|x|)
    ensures t < |x| && x[t]
    ensures forall i :: 0 <= i < t ==> !x[i]
  {
    if x[0] then 0
    else
      1 + LowestSetBit(x[1..])
  }

  /** `x - 1` clears the lowest set bit `t` of `x`, sets every bit below it and
      keeps every bit above it. */
  function Borrowed(x: Word, t: nat): (r: Word)
    requires t < |x|
    ensures |r| == |x|
  {
    seq(|x|, i requires 0 <= i < |x| => i < t || (i > t && x[i]))
  }

  lemma {:induction false} ValueBorrowed(x: Word, t: nat)
    requires t < |x| && x[t]
    requires forall i :: 0 <= i < t ==> !x[i]
    ensures Value(Borrowed(x, t)) + 1 == Value(x)
  {
    var d := Borrowed(x, t);
    if t == 0 {
      assert d[1..] == x[1..];
    } else {
      assert d[1..] == Borrowed(x[1..], t - 1);
      ValueBorrowed(x[1..], t - 1);
    }
  }

  lemma DecrementBits(x: Word)
    requires x != Zeros(|x|)
    ensures Sub(x, Lit(1, |x|)) == Borrowed(x, LowestSetBit(x))
  {
    var t := LowestSetBit(x);
    ValueBorrowed(x, t);
    LitOne(|x|);
    ValueSingleBit(|x|, 0);
    ValueInjective(Sub(x, Lit(1, |x|)), Borrowed(x, t));
  }

  // ---------------------------------------------------------------------------
  // Characterisations

  /** The unsigned test holds exactly of the words with a single set bit. */
  lemma PowerOfTwoIsSingleBit(x: Word)
    requires |x| > 0
    ensures IsPowerOfTwo(x) <==> exists k :: 0 <= k < |x| && x == SingleBit(|x|, k)
  {
    if x == Zeros(|x|) {
      forall k | 0 <= k < |x|
        ensures x != SingleBit(|x|, k)
      {
        assert SingleBit(|x|, k)[k];
      }
    } else {
      var t := LowestSetBit(x);
      DecrementBits(x);
      var a := And(x, Sub(x, Lit(1, |x|)));
      assert forall i :: 0 <= i < |x| ==> (a[i] <==> i > t && x[i]);
      if a == Zeros(|x|) {
        assert x == SingleBit(|x|, t);
      }
      if exists k :: 0 <= k < |x| && x == SingleBit(|x|, k) {
        var k :| 0 <= k < |x| && x == SingleBit(|x|, k);
        assert t == k;
        assert a == Zeros(|x|);
      }
    }
  }

  /** The unsigned test holds exactly of the values 2^k that the width can hold. */
  lemma PowerOfTwoValue(x: Word)
    requires |x| > 0
    ensures IsPowerOfTwo(x) <==> exists k :: 0 <= k < |x| && Value(x) == Pow2(k)
  {
    PowerOfTwoIsSingleBit(x);
    if exists k :: 0 <= k < |x| && Value(x) == Pow2(k) {
      var k :| 0 <= k < |x| && Value(x) == Pow2(k);
      ValueSingleBit(|x|, k);
      ValueInjective(x, SingleBit(|x|, k));
    }
    if IsPowerOfTwo(x) {
      var k :| 0 <= k < |x| && x == SingleBit(|x|, k);
      ValueSingleBit(|x|, k);
    }
  }

  /** Away from the overflowing least value, the signed test is the unsigned
      test applied to the two's-complement pattern. */
  lemma SignedAgreesWithUnsigned(w: Width, x: int)
    requires InSignedRange(w, x) && x != MinSigned(w)
    ensures IsPowerOfTwoSigned(w, x) == IsPowerOfTwo(Lit(x, w.Size()))
  {
    Pow2Monotone(w.Size() - 1, w.Size());
    DecrementPattern(x, w.Size());
  }

  /** For `x` other than 0 whose successor and predecessor fit in `n` bits as
      two's complement, the pattern of `x - 1` is the pattern of `x` less one,
      and the pattern of `x` is not zero. */
  lemma DecrementPattern(x: int, n: nat)
    requires n > 0 && 0 - Pow2(n) < x - 1 && x < Pow2(n)
    ensures x == 0 <==> Lit(x, n) == Zeros(n)
    ensures x != 0 ==> Lit(x - 1, n) == Sub(Lit(x, n), Lit(1, n))
  {
    LitZero(n);
    ValueZeros(n);
    if x != 0 {
      var u := Lit(x, n);
      LitOne(n);
      ValueSingleBit(n, 0);
      ValueInjective(Lit(x - 1, n), Sub(u, Lit(1, n)));
    }
  }

  /** The signed test holds exactly of the positive powers of two. */
  lemma SignedPowerOfTwoValue(w: Width, x: int)
    requires InSignedRange(w, x) && x != MinSigned(w)
    ensures IsPowerOfTwoSigned(w, x) <==> x > 0 && exists k :: 0 <= k < w.Size() && x == Pow2(k)
  {
    var n := w.Size();
    Pow2Monotone(n - 1, n);
    SignedAgreesWithUnsigned(w, x);
    PowerOfTwoValue(Lit(x, n));
    if x < 0 && IsPowerOfTwoSigned(w, x) {
      var k :| 0 <= k < n && Value(Lit(x, n)) == Pow2(k);
      Pow2Monotone(k, n - 1);
      assert false;
    }
    if x > 0 && exists k :: 0 <= k < n && x == Pow2(k) {
      var k :| 0 <= k < n && x == Pow2(k);
      assert Value(Lit(x, n)) == Pow2(k);
    }
  }
}
