/** The fixed-width bit container `Bits<length>`: one storage word of 32 or 64
    bits, read and written either whole or one (start, bits) range at a time.
    The container is a value: `set` returns the updated container. */
module BitContainer {
  import opened Words
  import PowerOfTwo

  /** `Bits<length>` with its storage word `data`; `width` is the template
      argument, restricted by the type to 32 or 64. */
  datatype Bits = Bits(width: Width, data: Word) {
    /** The storage word has the container's width. */
    predicate Valid() {
      |data| == width.Size()
    }
  }

  /** The container's two static assertions: the width is a power of two
      (tested with the int32 `is_power_of_two`) and is 32 or 64. */
  lemma WidthIsPowerOfTwo(w: Width)
    ensures PowerOfTwo.InSignedRange(W32, w.Size()) && w.Size() != PowerOfTwo.MinSigned(W32)
    ensures PowerOfTwo.IsPowerOfTwoSigned(W32, w.Size())
    ensures w.Size() == 32 || w.Size() == 64
  {
    assert Pow2(5) == 32;
    assert Pow2(6) == 64;
    Pow2Monotone(6, 31);
    PowerOfTwo.SignedPowerOfTwoValue(W32, w.Size());
  }

  /** The default constructor `Bits()`: the zero word. */
  function Zero(w: Width): (b: Bits)
    ensures b.Valid() && b.width == w
    ensures Value(b.data) == 0
  {
    ValueZeros(w.Size());
    Bits(w, Zeros(w.Size()))
  }

  /** A (start, bits) range that `mask`, `get` and `set` may use on a word of
      width `w`: it lies inside the word, and neither shift reaches the width
      (a shift by the width is undefined in C++). */
  predicate InRange(w: Width, start: nat, bits: nat) {
    start < w.Size() && bits < w.Size() && start + bits <= w.Size()
  }

  /** `mask<start, bits>()`: `(((T)1 << bits) - 1) << start`. Its set bits are
      exactly bits start .. start+bits-1. */
  function Mask(w: Width, start: nat, bits: nat): (r: Word)
    requires InRange(w, start, bits)
    ensures |r| == w.Size()
    ensures forall i :: 0 <= i < w.Size() ==> (r[i] <==> start <= i < start + bits)
  {
    var n := w.Size();
    LowMaskIsLowOnes(n, bits);
    Shl(Sub(Shl(Lit(1, n), bits), Lit(1, n)), start)
  }

  /** `get<start, bits>()`: `(data >> start) & (((T)1 << bits) - 1)`. The
      result holds the range's bits right-aligned, with zeros above them. */
  function GetRange(b: Bits, start: nat, bits: nat): (r: Word)
    requires b.Valid() && InRange(b.width, start, bits)
    ensures |r| == b.width.Size()
    ensures forall i :: 0 <= i < |r| ==> r[i] == (i < bits && b.data[start + i])
    ensures Value(r) < Pow2(bits)
  {
    var n := b.width.Size();
    LowMaskIsLowOnes(n, bits);
    var r := And(Shr(b.data, start), Sub(Shl(Lit(1, n), bits), Lit(1, n)));
    assert r == r[..bits] + Zeros(n - bits);
    ValueConcat(r[..bits], Zeros(n - bits));
    ValueZeros(n - bits);
    MulZero(Pow2(bits));
    r
  }

  /** `set<start, bits>(val)`: `data = (data & ~mask) | ((val << start) & mask)`.
      The range receives the low `bits` bits of `val`; every other bit of the
      word is unchanged. */
  function SetRange(b: Bits, start: nat, bits: nat, val: Word): (r: Bits)
    requires b.Valid() && InRange(b.width, start, bits) && |val| == b.width.Size()
    ensures r.Valid() && r.width == b.width
    ensures forall i :: 0 <= i < |r.data| ==>
      r.data[i] == (if start <= i < start + bits then val[i - start] else b.data[i])
  {
    var m := Mask(b.width, start, bits);
    b.(data := Or(And(b.data, Not(m)), And(Shl(val, start), m)))
  }

  /** `get()`: the whole storage word. */
  function GetWord(b: Bits): (r: Word)
    requires b.Valid()
    ensures |r| == b.width.Size()
  {
    b.data
  }

  /** `operator()(T)`: the whole storage word; the argument is ignored. */
  function Call(b: Bits, ignored: Word): (r: Word)
    requires b.Valid()
    ensures |r| == b.width.Size()
  {
    b.data
  }

  /** `set(data)`: replaces the whole storage word. */
  function SetWord(b: Bits, d: Word): (r: Bits)
    requires |d| == b.width.Size()
    ensures r.Valid() && r.width == b.width
  {
    b.(data := d)
  }

  // ---------------------------------------------------------------------------
  // Properties of the range accessors

  /** Two ranges share no bit. */
  predicate Disjoint(s1: nat, n1: nat, s2: nat, n2: nat) {
    s1 + n1 <= s2 || s2 + n2 <= s1
  }

  /** Reading a range just written returns the written value truncated to the
      range: `val & (((T)1 << bits) - 1)`, that is `val` modulo 2^bits. */
  lemma GetAfterSet(b: Bits, start: nat, bits: nat, val: Word)
    requires b.Valid() && InRange(b.width, start, bits) && |val| == b.width.Size()
    ensures GetRange(SetRange(b, start, bits, val), start, bits) == And(val, LowOnes(|val|, bits))
    ensures Value(GetRange(SetRange(b, start, bits, val), start, bits)) == Value(val) % Pow2(bits)
  {
    ValueLowBits(val, bits);
  }

  /** Writing a range leaves every range disjoint from it reading as before. */
  lemma GetAfterSetDisjoint(b: Bits, s1: nat, n1: nat, val: Word, s2: nat, n2: nat)
    requires b.Valid() && |val| == b.width.Size()
    requires InRange(b.width, s1, n1) && InRange(b.width, s2, n2)
    requires Disjoint(s1, n1, s2, n2)
    ensures GetRange(SetRange(b, s1, n1, val), s2, n2) == GetRange(b, s2, n2)
  {
  }

  /** Of two writes to the same range, the second wins. */
  lemma SetTwice(b: Bits, start: nat, bits: nat, v1: Word, v2: Word)
    requires b.Valid() && InRange(b.width, start, bits)
    requires |v1| == b.width.Size() && |v2| == b.width.Size()
    ensures SetRange(SetRange(b, start, bits, v1), start, bits, v2) == SetRange(b, start, bits, v2)
  {
  }

  /** Writing back what a range holds changes nothing. */
  lemma SetWhatIsThere(b: Bits, start: nat, bits: nat)
    requires b.Valid() && InRange(b.width, start, bits)
    ensures SetRange(b, start, bits, GetRange(b, start, bits)) == b
  {
  }

  /** Writes to disjoint ranges commute. */
  lemma SetDisjointCommute(b: Bits, s1: nat, n1: nat, v1: Word, s2: nat, n2: nat, v2: Word)
    requires b.Valid() && |v1| == b.width.Size() && |v2| == b.width.Size()
    requires InRange(b.width, s1, n1) && InRange(b.width, s2, n2)
    requires Disjoint(s1, n1, s2, n2)
    ensures SetRange(SetRange(b, s1, n1, v1), s2, n2, v2)
         == SetRange(SetRange(b, s2, n2, v2), s1, n1, v1)
  {
  }

  /** On a default-constructed container, a write to one range is read back
      truncated and every disjoint range reads zero. */
  lemma ZeroThenSet(w: Width, s1: nat, n1: nat, val: Word, s2: nat, n2: nat)
    requires |val| == w.Size() && InRange(w, s1, n1) && InRange(w, s2, n2)
    requires Disjoint(s1, n1, s2, n2)
    ensures GetRange(SetRange(Zero(w), s1, n1, val), s1, n1) == And(val, LowOnes(|val|, n1))
    ensures GetRange(SetRange(Zero(w), s1, n1, val), s2, n2) == Zeros(w.Size())
  {
    GetAfterSet(Zero(w), s1, n1, val);
  }

  /** The whole-word accessors: `get()` and `operator()` read what `set(data)`
      wrote, and every range then reads the corresponding bits of it. */
  lemma WholeWordAccess(b: Bits, d: Word, ignored: Word, start: nat, bits: nat)
    requires b.Valid() && |d| == b.width.Size() && InRange(b.width, start, bits)
    ensures GetWord(SetWord(b, d)) == d
    ensures Call(SetWord(b, d), ignored) == d
    ensures SetWord(b, GetWord(b)) == b
    ensures forall i :: 0 <= i < bits ==> GetRange(SetWord(b, d), start, bits)[i] == d[start + i]
  {
  }
}
