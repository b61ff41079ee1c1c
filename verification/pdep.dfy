/** `pdep`: parallel bits deposit. The source delegates to the BMI2
    instructions; here the operation is defined by the instruction's own
    description (PDEP, Intel 64 and IA-32 Architectures Software Developer's
    Manual, Volume 2B): walk the mask from bit 0 upwards and give each set mask
    bit the next unused bit of the source, starting from source bit 0. */
module Pdep {
  import opened Words
  import PowerOfTwo

  /** The number of set bits of `mask` below bit `m`. A set mask bit at `m`
      receives source bit `Rank(mask, m)`. */
  function Rank(mask: Word, m: nat): (r: nat)
    requires m <= |mask|
    ensures r <= m
  {
    if m == 0 then 0 else Rank(mask, m - 1) + (if mask[m - 1] then 1 else 0)
  }

  /** The manual's loop from step `m` on, with `k` source bits used so far:
      if MASK[m] is set then DEST[m] := TEMP[k] and k advances; m advances. */
  function DepositFrom(value: Word, mask: Word, m: nat, k: nat, dest: Word): (r: Word)
    requires |value| == |mask| == |dest| && k <= m <= |mask|
    ensures |r| == |mask|
    decreases |mask| - m
  {
    if m == |mask| then dest
    else if mask[m] then DepositFrom(value, mask, m + 1, k + 1, dest[m := value[k]])
    else DepositFrom(value, mask, m + 1, k, dest)
  }

  /** PDEP with operand size `|mask|`: DEST starts at zero. */
  function Deposit(value: Word, mask: Word): (r: Word)
    requires |value| == |mask|
    ensures |r| == |mask|
  {
    DepositFrom(value, mask, 0, 0, Zeros(|mask|))
  }

  lemma {:induction false} DepositFromBits(value: Word, mask: Word, m: nat, k: nat, dest: Word)
    requires |value| == |mask| == |dest| && m <= |mask| && k == Rank(mask, m)
    requires forall i :: m <= i < |dest| ==> !dest[i]
    ensures forall i :: 0 <= i < |mask| ==>
      DepositFrom(value, mask, m, k, dest)[i]
        == if i < m then dest[i] else mask[i] && value[Rank(mask, i)]
    decreases |mask| - m
  {
    if m < |mask| {
      if mask[m] {
        DepositFromBits(value, mask, m + 1, k + 1, dest[m := value[k]]);
      } else {
        DepositFromBits(value, mask, m + 1, k, dest);
      }
    }
  }

  /** Bit i of the result is set exactly when mask bit i is set and the
      source bit it receives, number Rank(mask, i), is set. */
  lemma DepositBits(value: Word, mask: Word)
    requires |value| == |mask|
    ensures forall i :: 0 <= i < |mask| ==>
      Deposit(value, mask)[i] == (mask[i] && value[Rank(mask, i)])
  {
    DepositFromBits(value, mask, 0, 0, Zeros(|mask|));
  }

  /** The result has no bit outside the mask, and the set mask bits, taken
      from the lowest up, hold the source bits 0, 1, 2, ... in order. */
  lemma DepositScatters(value: Word, mask: Word)
    requires |value| == |mask|
    ensures And(Deposit(value, mask), Not(mask)) == Zeros(|mask|)
    ensures forall i :: 0 <= i < |mask| && mask[i] ==> Deposit(value, mask)[i] == value[Rank(mask, i)]
    ensures forall i, j :: 0 <= i < j < |mask| && mask[i] && mask[j] ==> Rank(mask, i) < Rank(mask, j)
  {
    DepositBits(value, mask);
    forall i, j | 0 <= i < j < |mask| && mask[i] && mask[j]
      ensures Rank(mask, i) < Rank(mask, j)
    {
      RankMonotone(mask, i + 1, j);
    }
  }

  lemma {:induction false} RankMonotone(mask: Word, a: nat, b: nat)
    requires a <= b <= |mask|
    ensures Rank(mask, a) <= Rank(mask, b)
    decreases b - a
  {
    if a < b {
      RankMonotone(mask, a, b - 1);
    }
  }

  /** `pdep(uint32 value, uint32 mask)`. */
  function PdepU32(value: Word, mask: Word): (r: Word)
    requires |value| == 32 && |mask| == 32
    ensures |r| == 32
    ensures forall i :: 0 <= i < 32 ==> r[i] == (mask[i] && value[Rank(mask, i)])
  {
    DepositBits(value, mask);
    Deposit(value, mask)
  }

  /** `pdep(uint64 value, uint64 mask)`. */
  function PdepU64(value: Word, mask: Word): (r: Word)
    requires |value| == 64 && |mask| == 64
    ensures |r| == 64
    ensures forall i :: 0 <= i < 64 ==> r[i] == (mask[i] && value[Rank(mask, i)])
  {
    DepositBits(value, mask);
    Deposit(value, mask)
  }

  /** `pdep(int32 value, int32 mask)`: both arguments are converted to uint32,
      that is to their two's-complement patterns, and deposited. A negative
      mask has bit 31 set, so the result can have bit 31 set. */
  function PdepI32(value: int, mask: int): (r: Word)
    requires PowerOfTwo.InSignedRange(W32, value) && PowerOfTwo.InSignedRange(W32, mask)
    ensures |r| == 32
    ensures And(r, Not(Lit(mask, 32))) == Zeros(32)
    ensures forall i :: 0 <= i < 32 && Lit(mask, 32)[i] ==>
      r[i] == Lit(value, 32)[Rank(Lit(mask, 32), i)]
  {
    PdepU32(Lit(value, 32), Lit(mask, 32))
  }

  /** The worked example: depositing 0b101 into the mask 0b010101 places
      source bits 1, 0, 1 at mask positions 0, 2, 4, giving 0b010001. */
  lemma DepositExample()
    ensures PdepU32([true, false, true] + Zeros(29), [true, false, true, false, true] + Zeros(27))
         == [true, false, false, false, true] + Zeros(27)
  {
    var value := [true, false, true] + Zeros(29);
    var mask := [true, false, true, false, true] + Zeros(27);
    assert Rank(mask, 2) == 1 && Rank(mask, 4) == 2;
    var r := PdepU32(value, mask);
    assert forall i :: 5 <= i < 32 ==> !r[i];
  }
}
