/** Integer helpers: `product`, `least_pot_bound`, `pot_mask` and `log2int`. */
module IntHelpers {
  import opened Words
  import PowerOfTwo
  import BitContainer

  // ---------------------------------------------------------------------------
  // product

  /** The product of a sequence, multiplied from the right end inwards; the
      empty product is 1. */
  function ProductOf(s: seq<int>): int {
    if |s| == 0 then 1 else s[0] * ProductOf(s[1..])
  }

  /** Appending a factor multiplies the product by it. */
  lemma {:induction false} ProductOfSnoc(s: seq<int>, x: int)
    ensures ProductOf(s + [x]) == ProductOf(s) * x
    decreases |s|
  {
    if |s| > 0 {
      assert (s + [x])[1..] == s[1..] + [x];
      ProductOfSnoc(s[1..], x);
      MulAssoc(s[0], ProductOf(s[1..]), x);
    }
  }

  lemma MulAssoc(a: int, b: int, c: int)
    ensures a * (b * c) == (a * b) * c
  {
  }

  /** `product(arr)`: `ret` starts at 1 and is multiplied by each element
      from left to right. The elements are mathematical integers. */
  method Product(arr: seq<int>) returns (ret: int)
    ensures ret == ProductOf(arr)
  {
    ret := 1;
    for i := 0 to |arr|
      invariant ret == ProductOf(arr[..i])
    {
      assert arr[..i + 1] == arr[..i] + [arr[i]];
      ProductOfSnoc(arr[..i], arr[i]);
      ret := ret * arr[i];
    }
    assert arr[..|arr|] == arr;
  }

  /** The product of a concatenation is the product of the products. */
  lemma {:induction false} ProductOfConcat(a: seq<int>, b: seq<int>)
    ensures ProductOf(a + b) == ProductOf(a) * ProductOf(b)
    decreases |a|
  {
    if |a| > 0 {
      assert (a + b)[1..] == a[1..] + b;
      ProductOfConcat(a[1..], b);
      MulAssoc(a[0], ProductOf(a[1..]), ProductOf(b));
    } else {
      assert a + b == b;
    }
  }

  /** A product is zero exactly when some factor is zero. */
  lemma {:induction false} ProductOfZero(s: seq<int>)
    ensures ProductOf(s) == 0 <==> exists i :: 0 <= i < |s| && s[i] == 0
    decreases |s|
  {
    if |s| > 0 {
      ProductOfZero(s[1..]);
      MulZeroIff(s[0], ProductOf(s[1..]));
      if exists i :: 0 <= i < |s| && s[i] == 0 {
        var i :| 0 <= i < |s| && s[i] == 0;
        if i > 0 {
          assert s[1..][i - 1] == 0;
        }
      }
      if exists i :: 0 <= i < |s| - 1 && s[1..][i] == 0 {
        var i :| 0 <= i < |s| - 1 && s[1..][i] == 0;
        assert s[i + 1] == 0;
      }
    }
  }

  lemma MulZeroIff(a: int, b: int)
    ensures a * b == 0 <==> a == 0 || b == 0
  {
  }

  // ---------------------------------------------------------------------------
  // least_pot_bound

  /** `least_pot_bound(v)` on a 64-bit `size_t`: `ret` starts at 1 and doubles
      while it is below `v`. For `v` above 2^63 the doubling wraps to 0 and
      the loop never ends, so such `v` are excluded. The result is the least
      power of two that is at least `v`. */
  method LeastPotBound(v: Word) returns (ret: Word)
    requires |v| == 64 && Value(v) <= Pow2(|v| - 1)
    ensures |ret| == 64
    ensures PowerOfTwo.IsPowerOfTwo(ret)
    ensures Value(ret) >= Value(v)
    ensures Value(v) > 1 ==> Value(ret) / 2 < Value(v)
    ensures Value(v) <= 1 ==> Value(ret) == 1
    ensures forall k :: 0 <= k < 64 && Pow2(k) >= Value(v) ==> Value(ret) <= Pow2(k)
  {
    var n := |v|;
    LitOne(n);
    ret := Lit(1, n);
    ghost var k: nat := 0;
    while Less(ret, v)
      invariant k < n && ret == SingleBit(n, k)
      invariant k > 0 ==> Pow2(k - 1) < Value(v)
      decreases n - k
    {
      ValueSingleBit(n, k);
      Doubling(n, k);
      ret := Mul(ret, Lit(2, n));
      k := k + 1;
    }
    ValueSingleBit(n, k);
    PowerOfTwo.PowerOfTwoIsSingleBit(ret);
    LeastPower(Value(v), k);
  }

  /** `ret *= 2` on the word 2^k moves its bit up by one, while 2^(k+1) fits. */
  lemma Doubling(n: nat, k: nat)
    requires k + 1 < n
    ensures Mul(SingleBit(n, k), Lit(2, n)) == SingleBit(n, k + 1)
  {
    ValueSingleBit(n, k);
    ValueSingleBit(n, k + 1);
    ValueSingleBit(n, 1);
    assert Lit(2, n) == SingleBit(n, 1) by {
      Pow2Monotone(2, n);
      ValueInjective(Lit(2, n), SingleBit(n, 1));
    }
    Pow2Monotone(k + 1, n);
    ValueInjective(Mul(SingleBit(n, k), Lit(2, n)), SingleBit(n, k + 1));
  }

  /** If 2^(k-1) < n <= 2^k then 2^k is the least power of two at least n:
      half of it is below n, and it is 1 when n is 0 or 1. */
  lemma LeastPower(n: nat, k: nat)
    requires n <= Pow2(k) && (k > 0 ==> Pow2(k - 1) < n)
    ensures n > 1 ==> Pow2(k) / 2 < n
    ensures n <= 1 ==> Pow2(k) == 1
    ensures forall j :: 0 <= j < 64 && Pow2(j) >= n ==> Pow2(k) <= Pow2(j)
  {
    forall j | 0 <= j < 64 && Pow2(j) >= n
      ensures Pow2(k) <= Pow2(j)
    {
      if j < k {
        Pow2Monotone(j, k - 1);
      } else {
        Pow2Monotone(k, j);
      }
    }
  }

  // ---------------------------------------------------------------------------
  // pot_mask

  /** `pot_mask(x)`: `(1u << x) - 1`, the 32-bit word whose set bits are bits
      0 .. x-1, of value 2^x - 1. A shift by 32 is undefined, so x < 32. */
  function PotMask(x: int): (r: Word)
    requires 0 <= x < 32
    ensures |r| == 32
    ensures forall i :: 0 <= i < 32 ==> (r[i] <==> i < x)
    ensures Value(r) == Pow2(x) - 1
  {
    LowMaskIsLowOnes(32, x);
    ValueLowOnes(32, x);
    Sub(Shl(Lit(1, 32), x), Lit(1, 32))
  }

  /** `pot_mask(x)` is the container mask of x bits starting at bit 0. */
  lemma PotMaskIsMask(x: nat)
    requires x < 32
    ensures PotMask(x) == BitContainer.Mask(W32, 0, x)
  {
  }

  // ---------------------------------------------------------------------------
  // log2int

  /** `log2int(value)`: shift `value` right once, then count the further
      shifts until it is zero. For a non-zero input the count is the index of
      the highest set bit, floor(log2(value)); for zero the loop never runs and
      the result is 0. */
  method Log2Int(v: Word) returns (r: nat)
    requires |v| == 64
    ensures r < 64
    ensures Value(v) == 0 ==> r == 0
    ensures Value(v) > 0 ==> v[r] && forall j :: r < j < 64 ==> !v[j]
    ensures Value(v) > 0 ==> Pow2(r) <= Value(v) < Pow2(r + 1)
  {
    var value := Shr(v, 1);
    var ret := 0;
    while value != Zeros(64)
      invariant ret < 64 && |value| == 64
      invariant forall i :: 0 <= i < 64 ==> value[i] == (i + ret + 1 < 64 && v[i + ret + 1])
      invariant ret > 0 ==> exists j :: ret <= j < 64 && v[j]
      decreases 64 - ret
    {
      var i :| 0 <= i < 64 && value[i];
      assert v[i + ret + 1];
      value := Shr(value, 1);
      ret := ret + 1;
    }
    r := ret;
    assert forall j :: r < j < 64 ==> !v[j] by {
      forall j | r < j < 64
        ensures !v[j]
      {
        assert !value[j - r - 1];
      }
    }
    ValueZeroIff(v);
    if Value(v) > 0 {
      if r == 0 {
        var j :| 0 <= j < 64 && v[j];
      }
      ValueHighestBit(v, r);
    }
  }

  // ---------------------------------------------------------------------------
  // Worked values

  /** The only r that Log2Int's ensures allow for 1, 8 and 1023 are 0, 3 and 9. */
  lemma {:induction false} FloorLog2Values(r: nat)
    ensures Pow2(r) <= 1 < Pow2(r + 1) ==> r == 0
    ensures Pow2(r) <= 8 < Pow2(r + 1) ==> r == 3
    ensures Pow2(r) <= 1023 < Pow2(r + 1) ==> r == 9
  {
    Pow2Values();
    if r >= 10 {
      Pow2Monotone(10, r);
    } else if r >= 4 {
      Pow2Monotone(4, r);
      Pow2Monotone(r + 1, 10);
    } else if r >= 1 {
      Pow2Monotone(1, r);
      Pow2Monotone(r + 1, 4);
    }
  }

  /** The only power of two that LeastPotBound's ensures allow for 5 and for 8
      is 8. */
  lemma {:induction false} LeastPotBoundValues(k: nat)
    ensures Pow2(k) >= 5 && Pow2(k) / 2 < 5 ==> Pow2(k) == 8
    ensures Pow2(k) >= 8 && Pow2(k) / 2 < 8 ==> Pow2(k) == 8
  {
    Pow2Values();
    if k >= 4 {
      Pow2Monotone(4, k);
    } else if k <= 2 {
      Pow2Monotone(k, 2);
    }
  }

  lemma Pow2Values()
    ensures Pow2(0) == 1 && Pow2(1) == 2 && Pow2(2) == 4 && Pow2(3) == 8 && Pow2(4) == 16
    ensures Pow2(9) == 512 && Pow2(10) == 1024
  {
  }

  /** `product({2, 3, 4}) == 24` and `product({}) == 1`. */
  lemma ProductValues()
    ensures ProductOf([2, 3, 4]) == 24
    ensures ProductOf([]) == 1
  {
  }
}
