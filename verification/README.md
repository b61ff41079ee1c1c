# Bit utilities of Taichi (`bit.h`) in Dafny

This project models the bit-manipulation toolkit of `include/taichi/common/bit.h` and proves
properties of it. The toolkit has five parts:

- the four `is_power_of_two` overloads;
- the fixed-width container `Bits<32>`/`Bits<64>`, with its range accessors `mask`, `get` and
  `set`, its whole-word accessors, and the named fields that `TC_BIT_FIELD` declares over it
  (with `bit_length<T>()`);
- the integer helpers `product`, `least_pot_bound`, `pot_mask` and `log2int`;
- the bit deposit `pdep` in its three overloads;
- the type punning `reinterpret_bits` and the float-pair packing `compress`/`extract`.

A machine word is a sequence of booleans, least significant bit first: `w[i]` is bit `i`. This
makes every bitwise operator a pointwise definition. C++ unsigned arithmetic (`+`, `-`, `*`, `<`,
integral conversion) is defined through the word's value `Value(w)` and is taken modulo 2^width.
A signed `int32`/`int64` argument is a mathematical integer within the type's range. Converting
it to an unsigned type (`Lit`) gives its two's-complement pattern. A `float32`/`float64` is its
IEEE-754 bit pattern.

Modules:

- `Words` (`words.dfy`): words, their values, the operators, and the facts linking them.
- `PowerOfTwo` (`power_of_two.dfy`): `is_power_of_two`.
- `BitContainer` (`bits.dfy`): `Bits<length>`.
- `BitField` (`bit_field.dfy`): `bit_length<T>()` and `TC_BIT_FIELD`.
- `IntHelpers` (`int_helpers.dfy`): `product`, `least_pot_bound`, `pot_mask` and `log2int`.
- `Pdep` (`pdep.dfy`): `pdep`.
- `Reinterpret` (`reinterpret.dfy`): `reinterpret_bits`, `compress` and `extract`.

## Model

| member | source | states |
|---|---|---|
| PowerOfTwo.PowerOfTwoIsSingleBit | include/taichi/common/bit.h:15-25 | the unsigned test `x != 0 && (x & (x - 1)) == 0` holds exactly of the words with one set bit |
| PowerOfTwo.PowerOfTwoValue | include/taichi/common/bit.h:15-25 | the unsigned test holds exactly when the value is 2^k for some k below the width |
| PowerOfTwo.DecrementBits | include/taichi/common/bit.h:12 | `x - 1` on a non-zero word clears its lowest set bit, sets every bit below it and keeps the bits above it |
| PowerOfTwo.SignedAgreesWithUnsigned | include/taichi/common/bit.h:11-21 | except at the least value, where `x - 1` overflows, the int32/int64 test gives the same answer as the unsigned test on x's two's-complement pattern |
| PowerOfTwo.SignedPowerOfTwoValue | include/taichi/common/bit.h:11-21 | the int32/int64 test holds exactly of the positive x that equal 2^k for some k below the width; no negative number passes |
| BitContainer.WidthIsPowerOfTwo | include/taichi/common/bit.h:29-30 | both container widths pass the static assertions: the int32 `is_power_of_two` holds of them and they are 32 or 64 |
| BitContainer.Zero | include/taichi/common/bit.h:36-37 | the default constructor gives a valid container whose word has value 0 |
| BitContainer.Mask | include/taichi/common/bit.h:43-46 | the set bits of `mask<start, bits>()` are exactly bits start to start+bits-1 |
| BitContainer.GetRange | include/taichi/common/bit.h:48-51 | `get<start, bits>()` holds the range's bits right-aligned with zeros above, so its value is below 2^bits |
| BitContainer.SetRange | include/taichi/common/bit.h:53-57 | `set<start, bits>(val)` writes the low `bits` bits of val into the range and leaves every other bit of the word unchanged |
| BitContainer.GetAfterSet | include/taichi/common/bit.h:48-57 | a range read right after a write to it returns val masked to the range width, that is val modulo 2^bits |
| BitContainer.GetAfterSetDisjoint | include/taichi/common/bit.h:48-57 | a write to one range leaves every disjoint range reading as before |
| BitContainer.SetTwice | include/taichi/common/bit.h:53-57 | of two writes to the same range, the second one wins |
| BitContainer.SetWhatIsThere | include/taichi/common/bit.h:48-57 | writing back what a range reads leaves the container unchanged |
| BitContainer.SetDisjointCommute | include/taichi/common/bit.h:53-57 | writes to disjoint ranges commute |
| BitContainer.ZeroThenSet | include/taichi/common/bit.h:36-57 | on a default-constructed container, one write is read back truncated and every disjoint range reads zero |
| BitContainer.GetWord | include/taichi/common/bit.h:63-65 | `get()` returns a word of the container's width; WholeWordAccess states its content |
| BitContainer.Call | include/taichi/common/bit.h:59-61 | `operator()` returns a word of the container's width; WholeWordAccess states its content |
| BitContainer.SetWord | include/taichi/common/bit.h:67-69 | `set(data)` keeps the container valid and its width unchanged |
| BitContainer.WholeWordAccess | include/taichi/common/bit.h:48-69 | `get()` and `operator()` (whatever their argument) return what `set(data)` stored, storing what `get()` returns changes nothing, and the range reads then see the stored bits |
| BitField.BitLength | include/taichi/common/bit.h:72-75 | `bit_length<T>()` is 1 exactly for bool, and 8 * sizeof(T) otherwise |
| BitField.FromField | include/taichi/common/bit.h:81-82 | converting a field value to the storage type (bool to 0/1, signed by sign extension, unsigned by zero extension) keeps the value's pattern in the low bits |
| BitField.SignExtendKeepsLowBits | include/taichi/common/bit.h:81-82 | sign-extending a two's-complement pattern to a wider type keeps the pattern in the low bits |
| BitField.GetField | include/taichi/common/bit.h:77-80 | `get_name()` returns exactly the pattern held by the field's bits, including the `(bool)` conversion of a one-bit range |
| BitField.SetField | include/taichi/common/bit.h:81-83 | `set_name(val)` keeps the container valid and its width unchanged; GetFieldAfterSet and SetFieldInRecord state its effect |
| BitField.GetFieldAfterSet | include/taichi/common/bit.h:77-83 | a field of any type reads back exactly the value last written to it |
| BitField.BoolFieldRoundTrip | include/taichi/common/bit.h:77-83 | a bool field reads back the bool written to it, and that bool sits at the field's bit |
| BitField.SetFieldInRecord | include/taichi/common/bit.h:77-83 | when fields fit and do not overlap, setting one field changes no other field's value |
| IntHelpers.Product | include/taichi/common/bit.h:85-92 | `product(arr)` is the product of the elements; for an empty array it is 1 |
| IntHelpers.ProductOfConcat | include/taichi/common/bit.h:85-92 | the product of a concatenation is the product of the two products |
| IntHelpers.ProductOfZero | include/taichi/common/bit.h:85-92 | the product is zero exactly when some element is zero |
| IntHelpers.LeastPotBound | include/taichi/common/bit.h:94-100 | `least_pot_bound(v)` is the least power of two at least v: it passes `is_power_of_two`, is at least v, its half is below v when v > 1, and it is 1 when v <= 1 |
| IntHelpers.PotMask | include/taichi/common/bit.h:114-116 | `pot_mask(x)` has exactly bits 0 to x-1 set, so its value is 2^x - 1 |
| IntHelpers.PotMaskIsMask | include/taichi/common/bit.h:114-116 | `pot_mask(x)` is the container mask of x bits starting at bit 0 |
| IntHelpers.Log2Int | include/taichi/common/bit.h:118-126 | `log2int(value)` is the index of the highest set bit, so 2^r <= value < 2^(r+1), that is floor(log2(value)); for value 0 it is 0 |
| Pdep.DepositBits | include/taichi/common/bit.h:102-112 | result bit i is set exactly when mask bit i is set and source bit Rank(mask, i) is set, where Rank counts the mask bits below i |
| Pdep.DepositScatters | include/taichi/common/bit.h:102-112 | the result has no bit outside the mask, and the mask positions, read from lowest to highest, hold source bits 0, 1, 2, ... in order |
| Pdep.PdepU32 | include/taichi/common/bit.h:102-104 | the uint32 overload deposits the source bits into the mask positions, as DepositBits states |
| Pdep.PdepU64 | include/taichi/common/bit.h:110-112 | the uint64 overload deposits the source bits into the mask positions, as DepositBits states |
| Pdep.PdepI32 | include/taichi/common/bit.h:106-108 | the int32 overload deposits the two's-complement pattern of value into the set bits of mask's pattern and sets nothing outside it |
| Pdep.DepositExample | include/taichi/common/bit.h:102-104 | depositing 0b101 into the mask 0b010101 gives 0b010001 |
| Reinterpret.LoadStore | include/taichi/common/bit.h:128-138 | reading back the bytes a value was stored as gives the value's pattern |
| Reinterpret.ReinterpretBits | include/taichi/common/bit.h:128-143 | `reinterpret_bits<G>(t)` between types of equal size has exactly t's bit pattern |
| Reinterpret.ReinterpretRoundTrip | include/taichi/common/bit.h:140-143 | reinterpreting a 32-bit pattern to float32 and back gives the same pattern |
| Reinterpret.DisjointHalvesAdd | include/taichi/common/bit.h:146-147 | adding the shifted high half and the zero-extended low half never carries; the sum is the two halves side by side |
| Reinterpret.Compress | include/taichi/common/bit.h:145-149 | the float64 carrier holds h's pattern in its high 32 bits and l's in its low 32 bits |
| Reinterpret.AllOnesMask | include/taichi/common/bit.h:154 | `data & (-1)` is data itself, and casting it to uint32 keeps the low 32 bits |
| Reinterpret.Extract | include/taichi/common/bit.h:151-155 | `extract(x)` returns the high 32 bits of x's pattern, then the low 32 bits |
| Reinterpret.ExtractCompress | include/taichi/common/bit.h:145-155 | `extract(compress(h, l)) == (h, l)` bit for bit, for every pair of patterns, NaN payloads and signed zeros included |
| Reinterpret.CompressExtract | include/taichi/common/bit.h:145-155 | compressing the pair that `extract` returns gives back the original carrier |
| IntHelpers.FloorLog2Values | include/taichi/common/bit.h:118-126 | the only results Log2Int's ensures allow for 1, 8 and 1023 are 0, 3 and 9 |
| IntHelpers.LeastPotBoundValues | include/taichi/common/bit.h:94-100 | the only power of two LeastPotBound's ensures allow for 5, and for 8, is 8 |
| IntHelpers.ProductValues | include/taichi/common/bit.h:85-92 | the product of 2, 3 and 4 is 24, and the empty product is 1 |

`mask`, `get` and `set` take `bits = 1` by default. The one-argument forms `mask<start>()`,
`get<start>()` and `set<start>(val)` are `Mask(w, start, 1)`, `GetRange(b, start, 1)` and
`SetRange(b, start, 1, val)`.

Two edge cases of the code:

- `pot_mask(32)` evaluates `1u << 32`, a shift by the full width of `uint32`, which C++ leaves
  undefined. So PotMask requires x < 32.
- For `log2int(0)`, the first shift leaves 0, so the loop never runs and the code returns 0.
  Log2Int returns 0 for the zero word.

## Left out

- The constructor `Bits(void *)`: it leaves the word uninitialized, so there is no value to model.
- `TC_FORCE_INLINE`, `constexpr` and the namespace macros: they do not affect results.
- The intrinsics `_pdep_u32`/`_pdep_u64` are foreign calls. `Deposit` defines their result by the
  PDEP description in the Intel 64 and IA-32 Architectures Software Developer's Manual,
  Volume 2B.
- Floating-point arithmetic: `float32`/`float64` are only ever reinterpreted here, so they are
  modelled as 32- and 64-bit patterns. The union storage of `Reinterpretor` is modelled as
  storing the bytes of `t` and loading the bytes of `g`.
- BitField.GetField and BitField.SetField: field types are bool and the fixed-width integer
  types. A `float32`/`float64` field would involve a numeric conversion to and from the storage
  word, which is not modelled.
- BitField.FieldFits: two kinds of field are excluded:
  - A field as wide as its container (for example `int64` on `Bits<64>`). There
    `(T)1 << bits` shifts by the full width, which C++ leaves undefined.
  - A field that runs past the top of the word (for example `TC_BIT_FIELD(int16, f, 24)` on
    `Bits<32>`). Placing a field inside the word is the declaring code's obligation. C++
    would silently cut such a field at the top bit, so that reads and writes touch only the
    bits that exist.
- BitContainer.InRange: `start` and `bits` are template `int`s in the code. Three kinds of
  range are excluded:
  - negative arguments, and a shift amount reaching the width, which are undefined behaviour;
  - ranges that cross the top of the word (`start + bits` above the width, for example
    `get<30, 4>()` on `Bits<32>`). Keeping ranges inside the word is the caller's obligation.
    C++ silently truncates such a range: the unsigned shift in `mask` drops the bits above
    the top, so `get` and `set` act only on the bits that exist.
- PowerOfTwo.IsPowerOfTwoSigned: the least int32/int64 is excluded because `x - 1` overflows
  there, which is undefined for signed types.
- IntHelpers.Product: elements are mathematical integers. The wrap-around of an unsigned `T`,
  the overflow of a signed `T`, and floating-point `T` are not modelled. The array is a
  sequence, so its length `N` is the sequence's length.
- IntHelpers.LeastPotBound: `size_t` is taken as 64 bits. For v above 2^63, `ret *= 2` wraps to 0
  and the loop never ends, so such v are excluded.
- IntHelpers.Log2Int: the result is a `nat`, not a `uint32`. It is always below 64, so nothing
  is lost.
- IntHelpers.FloorLog2Values and IntHelpers.LeastPotBoundValues derive the worked values from
  the ensures of Log2Int and LeastPotBound. The methods are not run on concrete 64-bit words.
