/** Type punning: `reinterpret_bits`, and packing two float32 bit patterns
    into one float64 carrier (`compress`) and back (`extract`).

    Floating-point values are their IEEE-754 bit patterns (32 or 64 bits); no
    floating-point arithmetic happens here, so none is modelled. */
module Reinterpret {
  import opened Words

  /** The object representation of a value: its bit pattern cut into bytes,
      least significant byte first. */
  function Store(t: Word): (bytes: seq<Word>)
    requires |t| % 8 == 0
    ensures |bytes| == |t| / 8
    ensures forall j :: 0 <= j < |bytes| ==> |bytes[j]| == 8
    decreases |t|
  {
    if |t| == 0 then [] else [t[..8]] + Store(t[8..])
  }

  /** Reading a value of `|bytes|` bytes out of storage. */
  function Load(bytes: seq<Word>): (g: Word)
    decreases |bytes|
  {
    if |bytes| == 0 then [] else bytes[0] + Load(bytes[1..])
  }

  lemma {:induction false} LoadStore(t: Word)
    requires |t| % 8 == 0
    ensures Load(Store(t)) == t
    decreases |t|
  {
    if |t| > 0 {
      var bytes := Store(t);
      assert bytes[1..] == Store(t[8..]);
      LoadStore(t[8..]);
      assert t == t[..8] + t[8..];
    }
  }

  /** `reinterpret_bits<G>(t)`: `t` is written into a union whose other
      member, of type `G` and `gBytes` bytes, is then read. The static
      assertion demands that both types have the same size. The result has
      exactly the bit pattern of `t`: no numeric conversion happens. */
  function ReinterpretBits(t: Word, gBytes: nat): (g: Word)
    requires |t| == 8 * gBytes
    ensures g == t
  {
    LoadStore(t);
    Load(Store(t))
  }

  /** `compress(h, l)`: the float64 whose pattern is
      `((uint64)bits(h) << 32) + bits(l)`: `h` in the high half, `l` in the
      low half. */
  function Compress(h: Word, l: Word): (x: Word)
    requires |h| == 32 && |l| == 32
    ensures |x| == 64
    ensures x[32..] == h && x[..32] == l
  {
    var high := Shl(Convert(ReinterpretBits(h, 4), 64), 32);
    var low := Convert(ReinterpretBits(l, 4), 64);
    DisjointHalvesAdd(h, l);
    ReinterpretBits(Add(high, low), 8)
  }

  /** Adding the shifted high half and the zero-extended low half places them
      side by side; nothing carries. */
  lemma DisjointHalvesAdd(h: Word, l: Word)
    requires |h| == 32 && |l| == 32
    ensures Add(Shl(Convert(h, 64), 32), Convert(l, 64)) == l + h
  {
    assert Shl(Convert(h, 64), 32) == Zeros(|l|) + h;
    assert Convert(l, 64) == l + Zeros(|h|);
    AddSideBySide(l, h);
  }

  /** A word whose set bits all lie above `|l|` plus one whose set bits all
      lie below it is their concatenation. */
  lemma AddSideBySide(l: Word, h: Word)
    ensures Add(Zeros(|l|) + h, l + Zeros(|h|)) == l + h
  {
    var high := Zeros(|l|) + h;
    var low := l + Zeros(|h|);
    ValueZeros(|l|);
    ValueZeros(|h|);
    ValueConcat(Zeros(|l|), h);
    ValueConcat(l, Zeros(|h|));
    MulZero(Pow2(|l|));
    ValueConcat(l, h);
    ValueInjective(Add(high, low), l + h);
  }

  /** `extract(x)`: the pair (`(uint32)(bits(x) >> 32)`,
      `(uint32)(bits(x) & (-1))`), each read back as a float32 pattern: the
      high half and the low half of `x`. */
  function Extract(x: Word): (hl: (Word, Word))
    requires |x| == 64
    ensures hl.0 == x[32..] && hl.1 == x[..32]
  {
    var data := ReinterpretBits(x, 8);
    AllOnesMask(data);
    assert Convert(Shr(data, 32), 32) == x[32..];
    (ReinterpretBits(Convert(Shr(data, 32), 32), 4),
     ReinterpretBits(Convert(And(data, Lit(-1, |data|)), 32), 4))
  }

  /** `data & (-1)`: the `-1` converts to the all-ones word, so the `&` keeps
      `data` whole and the later cast to uint32 keeps its low 32 bits. */
  lemma AllOnesMask(data: Word)
    ensures And(data, Lit(-1, |data|)) == data
    ensures |data| >= 32 ==> Convert(And(data, Lit(-1, |data|)), 32) == data[..32]
  {
    FromNatZero(|data|);
  }

  /** Unpacking a packed pair gives back both patterns bit for bit, NaN
      payloads and signed zeros included. */
  lemma ExtractCompress(h: Word, l: Word)
    requires |h| == 32 && |l| == 32
    ensures Extract(Compress(h, l)) == (h, l)
  {
  }

  /** Packing an unpacked carrier gives back the carrier. */
  lemma CompressExtract(x: Word)
    requires |x| == 64
    ensures Compress(Extract(x).0, Extract(x).1) == x
  {
    assert x == x[..32] + x[32..];
  }

  /** Reinterpreting a 32-bit pattern as float32 and back yields the pattern. */
  lemma ReinterpretRoundTrip(x: Word)
    requires |x| == 32
    ensures ReinterpretBits(ReinterpretBits(x, 4), 4) == x
  {
  }
}
