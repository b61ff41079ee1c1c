/** Machine words as sequences of bits.

    A word of width n is a `seq<bool>` of length n whose element i is bit i
    (least significant first). The bitwise operators act position by position;
    the arithmetic operators follow C++ unsigned arithmetic, which is arithmetic
    modulo 2^n on the word's unsigned value. */
module Words {

  /** Bit i of a word is `w[i]`; bit 0 is the least significant. */
  type Word = seq<bool>

  /** The two storage widths the bit container supports. */
  datatype Width = W32 | W64 {
    function Size(): nat {
      if this == W32 then 32 else 64
    }
  }

  function Pow2(k: nat): (r: nat)
    ensures r >= 1
  {
    if k == 0 then 1 else 2 * Pow2(k - 1)
  }

  lemma {:induction false} Pow2Monotone(a: nat, b: nat)
    requires a <= b
    ensures Pow2(a) <= Pow2(b)
    decreases b - a
  {
    if a < b {
      Pow2Monotone(a + 1, b);
    }
  }

  /** The unsigned value of a word. */
  function Value(w: Word): (r: nat)
    ensures r < Pow2(|w|)
    decreases |w|
  {
    if |w| == 0 then 0 else (if w[0] then 1 else 0) + 2 * Value(w[1..])
  }

  /** The word of width `len` holding `n` modulo 2^len. */
  function FromNat(n: nat, len: nat): (r: Word)
    ensures |r| == len
  {
    if len == 0 then [] else [n % 2 == 1] + FromNat(n / 2, len - 1)
  }

  function Zeros(len: nat): (r: Word)
    ensures |r| == len
    ensures forall i :: 0 <= i < len ==> !r[i]
  {
    seq(len, i => false)
  }

  /** The word of width `len` whose only set bit is bit `k`. */
  function SingleBit(len: nat, k: nat): (r: Word)
    ensures |r| == len
    ensures forall i :: 0 <= i < len ==> (r[i] <==> i == k)
  {
    seq(len, i => i == k)
  }

  /** The word of width `len` whose set bits are exactly bits 0 .. k-1. */
  function LowOnes(len: nat, k: nat): (r: Word)
    ensures |r| == len
    ensures forall i :: 0 <= i < len ==> (r[i] <==> i < k)
  {
    seq(len, i => i < k)
  }

  // ---------------------------------------------------------------------------
  // Bitwise operators

  function Not(x: Word): (r: Word)
    ensures |r| == |x|
    ensures forall i :: 0 <= i < |x| ==> r[i] == !x[i]
  {
    seq(|x|, i requires 0 <= i < |x| => !x[i])
  }

  function And(x: Word, y: Word): (r: Word)
    requires |x| == |y|
    ensures |r| == |x|
    ensures forall i :: 0 <= i < |x| ==> r[i] == (x[i] && y[i])
  {
    seq(|x|, i requires 0 <= i < |x| => x[i] && y[i])
  }

  function Or(x: Word, y: Word): (r: Word)
    requires |x| == |y|
    ensures |r| == |x|
    ensures forall i :: 0 <= i < |x| ==> r[i] == (x[i] || y[i])
  {
    seq(|x|, i requires 0 <= i < |x| => x[i] || y[i])
  }

  /** `x << s`; a shift by the width or more is undefined in C++. */
  function Shl(x: Word, s: nat): (r: Word)
    requires s < |x|
    ensures |r| == |x|
    ensures forall i :: 0 <= i < |x| ==> r[i] == (s <= i && x[i - s])
  {
    seq(|x|, i requires 0 <= i < |x| => s <= i && x[i - s])
  }

  /** `x >> s` on an unsigned word (a logical shift). */
  function Shr(x: Word, s: nat): (r: Word)
    requires s < |x|
    ensures |r| == |x|
    ensures forall i :: 0 <= i < |x| ==> r[i] == (i + s < |x| && x[i + s])
  {
    seq(|x|, i requires 0 <= i < |x| => i + s < |x| && x[i + s])
  }

  // ---------------------------------------------------------------------------
  // Arithmetic operators (modulo 2^width)

  /** Conversion of the integer `n` to an unsigned type of width `len`: the
      result holds `n` modulo 2^len. A negative `n` is stored in two's
      complement, as the complement of `-n - 1`. */
  function Lit(n: int, len: nat): (r: Word)
    ensures |r| == len
    ensures 0 <= n < Pow2(len) ==> Value(r) == n
    ensures n < 0 && 0 <= n + Pow2(len) ==> Value(r) == n + Pow2(len)
  {
    if n >= 0 then
      ValueFromNat(n, len);
      FromNat(n, len)
    else
      ValueNot(FromNat(-n - 1, len));
      ValueFromNat(-n - 1, len);
      Not(FromNat(-n - 1, len))
  }

  /** Conversion between unsigned types: the value modulo 2^len. */
  function Convert(x: Word, len: nat): (r: Word)
    ensures |r| == len
    ensures len <= |x| ==> r == x[..len]
    ensures len >= |x| ==> r == x + Zeros(len - |x|)
  {
    FromNatTruncates(x, len);
    FromNatExtends(x, len);
    FromNat(Value(x), len)
  }

  function Add(x: Word, y: Word): (r: Word)
    requires |x| == |y|
    ensures |r| == |x|
    ensures Value(x) + Value(y) < Pow2(|x|) ==> Value(r) == Value(x) + Value(y)
  {
    ValueFromNat(Value(x) + Value(y), |x|);
    FromNat(Value(x) + Value(y), |x|)
  }

  function Sub(x: Word, y: Word): (r: Word)
    requires |x| == |y|
    ensures |r| == |x|
    ensures Value(y) <= Value(x) ==> Value(r) == Value(x) - Value(y)
  {
    Lit(Value(x) - Value(y), |x|)
  }

  function Mul(x: Word, y: Word): (r: Word)
    requires |x| == |y|
    ensures |r| == |x|
    ensures Value(x) * Value(y) < Pow2(|x|) ==> Value(r) == Value(x) * Value(y)
  {
    ValueFromNat(Value(x) * Value(y), |x|);
    FromNat(Value(x) * Value(y), |x|)
  }

  /** Unsigned `x < y`. */
  predicate Less(x: Word, y: Word)
    requires |x| == |y|
  {
    Value(x) < Value(y)
  }

  // ---------------------------------------------------------------------------
  // Facts relating words and their values

  lemma {:induction false} ValueFromNat(n: nat, len: nat)
    ensures n < Pow2(len) ==> Value(FromNat(n, len)) == n
  {
    if 0 < len && n < Pow2(len) {
      var r := FromNat(n, len);
      assert r[1..] == FromNat(n / 2, len - 1);
      ValueFromNat(n / 2, len - 1);
    }
  }

  /** Converting a word's value to a narrower (or equal) width keeps its low bits. */
  lemma {:induction false} FromNatTruncates(x: Word, len: nat)
    ensures len <= |x| ==> FromNat(Value(x), len) == x[..len]
  {
    if 0 < len <= |x| {
      FromNatTruncates(x[1..], len - 1);
      assert x[1..][..len - 1] == x[1..len];
    }
  }

  /** Converting a word's value to a wider width adds high zero bits. */
  lemma {:induction false} FromNatExtends(x: Word, len: nat)
    ensures len >= |x| ==> FromNat(Value(x), len) == x + Zeros(len - |x|)
  {
    if len >= |x| {
      if |x| == 0 {
        FromNatZero(len);
      } else {
        FromNatExtends(x[1..], len - 1);
        assert x + Zeros(len - |x|) == [x[0]] + (x[1..] + Zeros(len - |x|));
      }
    }
  }

  lemma {:induction false} FromNatZero(len: nat)
    ensures FromNat(0, len) == Zeros(len)
  {
    if len > 0 {
      FromNatZero(len - 1);
    }
  }

  lemma FromNatOfValue(x: Word)
    ensures FromNat(Value(x), |x|) == x
  {
    FromNatTruncates(x, |x|);
    assert x[..|x|] == x;
  }

  /** Two words of one width with the same value are the same word. */
  lemma ValueInjective(x: Word, y: Word)
    requires |x| == |y| && Value(x) == Value(y)
    ensures x == y
  {
    FromNatOfValue(x);
    FromNatOfValue(y);
  }

  lemma {:induction false} ValueNot(x: Word)
    ensures Value(Not(x)) == Pow2(|x|) - 1 - Value(x)
    decreases |x|
  {
    if |x| > 0 {
      assert Not(x)[1..] == Not(x[1..]);
      ValueNot(x[1..]);
    }
  }

  lemma {:induction false} ValueZeros(len: nat)
    ensures Value(Zeros(len)) == 0
  {
    if len > 0 {
      assert Zeros(len)[1..] == Zeros(len - 1);
      ValueZeros(len - 1);
    }
  }

  lemma {:induction false} ValueSingleBit(len: nat, k: nat)
    requires k < len
    ensures Value(SingleBit(len, k)) == Pow2(k)
  {
    if k == 0 {
      assert SingleBit(len, k)[1..] == Zeros(len - 1);
      ValueZeros(len - 1);
    } else {
      assert SingleBit(len, k)[1..] == SingleBit(len - 1, k - 1);
      ValueSingleBit(len - 1, k - 1);
    }
  }

  lemma {:induction false} ValueLowOnes(len: nat, k: nat)
    requires k <= len
    ensures Value(LowOnes(len, k)) == Pow2(k) - 1
  {
    if k == 0 {
      assert LowOnes(len, k) == Zeros(len);
      ValueZeros(len);
    } else {
      assert LowOnes(len, k)[1..] == LowOnes(len - 1, k - 1);
      ValueLowOnes(len - 1, k - 1);
    }
  }

  /** `(T)1` is the word whose only set bit is bit 0. */
  lemma LitOne(len: nat)
    requires len > 0
    ensures Lit(1, len) == SingleBit(len, 0)
  {
    Pow2Monotone(1, len);
    ValueSingleBit(len, 0);
    ValueInjective(Lit(1, len), SingleBit(len, 0));
  }

  lemma LitZero(len: nat)
    ensures Lit(0, len) == Zeros(len)
  {
    FromNatZero(len);
  }

  /** `((T)1 << k) - 1` is the word whose set bits are exactly bits 0 .. k-1. */
  lemma LowMaskIsLowOnes(len: nat, k: nat)
    requires k < len
    ensures Sub(Shl(Lit(1, len), k), Lit(1, len)) == LowOnes(len, k)
  {
    LitOne(len);
    assert Shl(Lit(1, len), k) == SingleBit(len, k);
    ValueSingleBit(len, k);
    ValueSingleBit(len, 0);
    ValueLowOnes(len, k);
    ValueInjective(Sub(Shl(Lit(1, len), k), Lit(1, len)), LowOnes(len, k));
  }

  lemma {:induction false} ValueConcat(x: Word, y: Word)
    ensures Value(x + y) == Value(x) + Pow2(|x|) * Value(y)
    decreases |x|
  {
    if |x| == 0 {
      assert x + y == y;
    } else {
      var xy := x + y;
      assert xy[0] == x[0] && xy[1..] == x[1..] + y;
      ValueConcat(x[1..], y);
      var p, v := Pow2(|x| - 1), Value(y);
      assert Value(xy) == (if x[0] then 1 else 0) + 2 * Value(xy[1..]);
      assert Value(x) == (if x[0] then 1 else 0) + 2 * Value(x[1..]);
      assert Value(xy[1..]) == Value(x[1..]) + p * v;
      assert Pow2(|x|) == 2 * p;
      MulAssoc2(p, v);
    }
  }

  lemma MulAssoc2(p: int, v: int)
    ensures (2 * p) * v == 2 * (p * v)
  {
  }

  lemma MulAtLeast(d: int, m: int)
    requires d >= 1 && m > 0
    ensures d * m >= m
  {
  }

  /** Euclidean division has one remainder. */
  lemma ModUnique(a: nat, m: nat, q: nat, r: nat)
    requires 0 <= r < m && a == q * m + r
    ensures a % m == r
  {
    var d := a / m - q;
    assert a == (a / m) * m + a % m;
    assert d * m == r - a % m;
    if d > 0 {
      MulAtLeast(d, m);
    } else if d < 0 {
      MulAtLeast(-d, m);
    }
  }

  /** `v & (((T)1 << k) - 1)` holds the value of `v` modulo 2^k. */
  lemma ValueLowBits(v: Word, k: nat)
    requires k <= |v|
    ensures Value(And(v, LowOnes(|v|, k))) == Value(v) % Pow2(k)
  {
    var low, high := v[..k], v[k..];
    ValueOfMasked(v, k);
    ValueSplit(v, k);
    ModUnique(Value(v), Pow2(k), Value(high), Value(low));
  }

  lemma ValueOfMasked(v: Word, k: nat)
    requires k <= |v|
    ensures Value(And(v, LowOnes(|v|, k))) == Value(v[..k])
  {
    var low := v[..k];
    assert And(v, LowOnes(|v|, k)) == low + Zeros(|v| - k);
    ValueConcat(low, Zeros(|v| - k));
    ValueZeros(|v| - k);
    MulZero(Pow2(k));
  }

  lemma ValueSplit(v: Word, k: nat)
    requires k <= |v|
    ensures Value(v) == Value(v[k..]) * Pow2(k) + Value(v[..k])
  {
    assert v == v[..k] + v[k..];
    ValueConcat(v[..k], v[k..]);
    MulComm(Pow2(k), Value(v[k..]));
  }

  lemma MulZero(p: int)
    ensures p * 0 == 0
  {
  }

  lemma MulComm(a: int, b: int)
    ensures a * b == b * a
  {
  }

  /** A word is zero exactly when its value is. */
  lemma ValueZeroIff(x: Word)
    ensures Value(x) == 0 <==> x == Zeros(|x|)
  {
    ValueZeros(|x|);
    if Value(x) == 0 {
      ValueInjective(x, Zeros(|x|));
    }
  }

  /** A word whose highest set bit is bit r lies in [2^r, 2^(r+1)). */
  lemma ValueHighestBit(v: Word, r: nat)
    requires r < |v| && v[r]
    requires forall j :: r < j < |v| ==> !v[j]
    ensures Pow2(r) <= Value(v) < Pow2(r + 1)
  {
    var low, high := v[..r + 1], v[r + 1..];
    assert high == Zeros(|v| - r - 1);
    ValueSplit(v, r + 1);
    ValueZeros(|v| - r - 1);
    MulZeroLeft(Pow2(r + 1));
    assert Value(v) == Value(low);
    assert low == v[..r] + [true];
    ValueConcat(v[..r], [true]);
    assert Value([true]) == 1;
  }

  lemma MulZeroLeft(p: int)
    ensures 0 * p == 0
  {
  }
}
