/** Named fields over a `Bits` container (the `TC_BIT_FIELD(T, name, start)`
    pattern) and their widths (`bit_length<T>()`).

    A field is the pair (type, start). Its getter reads the range
    [start, start + bit_length<T>) and converts it to `T`; its setter converts
    the value to the storage type and writes the range. A field value is held as
    its bit pattern: `bit_length<T>()` bits, two's complement for the signed
    types. */
module BitField {
  import opened Words
  import opened BitContainer

  /** The value types a named field may be declared with. */
  datatype ValueType = Bool | Int8 | UInt8 | Int16 | UInt16 | Int32 | UInt32 | Int64 | UInt64 {
    /** `sizeof(T)` in bytes. */
    function SizeOf(): nat {
      match this
      case Bool => 1
      case Int8 => 1
      case UInt8 => 1
      case Int16 => 2
      case UInt16 => 2
      case Int32 => 4
      case UInt32 => 4
      case Int64 => 8
      case UInt64 => 8
    }

    predicate IsSigned() {
      this == Int8 || this == Int16 || this == Int32 || this == Int64
    }
  }

  /** `bit_length<T>()`: 1 for bool, otherwise the number of bits of `T`. */
  function BitLength(t: ValueType): (r: nat)
    ensures r >= 1
    ensures t == Bool <==> r == 1
    ensures t != Bool ==> r == 8 * t.SizeOf()
  {
    if t == Bool then 1 else t.SizeOf() * 8
  }

  /** The declaration `TC_BIT_FIELD(ty, name, start)`. */
  datatype Field = Field(ty: ValueType, start: nat)

  /** The field's range is usable on a word of width `w`. */
  predicate FieldFits(w: Width, f: Field) {
    InRange(w, f.start, BitLength(f.ty))
  }

  /** The signed value of a two's-complement pattern. */
  function SignedValue(v: Word): int
    requires |v| > 0
  {
    Value(v) - (if v[|v| - 1] then Pow2(|v|) else 0)
  }

  /** The conversion `(T)x` of a storage word to the field type: `x != 0` for
      bool, otherwise the value modulo 2^bit_length<T>(). */
  function ToField(x: Word, t: ValueType): (v: Word)
    requires |x| >= BitLength(t)
    ensures |v| == BitLength(t)
  {
    if t == Bool then [x != Zeros(|x|)] else Convert(x, BitLength(t))
  }

  /** The conversion of a field value `v` of type `t` to the storage type of
      width `n`: a bool becomes 0 or 1, a signed value is sign-extended and an
      unsigned one zero-extended. */
  function FromField(v: Word, t: ValueType, n: nat): (x: Word)
    requires |v| == BitLength(t) && |v| < n
    ensures |x| == n
    ensures x[..|v|] == v
  {
    if t == Bool then
      LitOne(n);
      LitZero(n);
      Lit(if v[0] then 1 else 0, n)
    else if t.IsSigned() then
      SignExtendKeepsLowBits(v, n);
      Lit(SignedValue(v), n)
    else
      Convert(v, n)
  }

  lemma SignExtendKeepsLowBits(v: Word, n: nat)
    requires 0 < |v| < n
    ensures Lit(SignedValue(v), n)[..|v|] == v
  {
    var m := |v|;
    Pow2Monotone(m, n);
    if v[m - 1] {
      NegativeSignExtend(v, n);
    } else {
      assert Lit(SignedValue(v), n) == Convert(v, n);
    }
  }

  /** A negative pattern extends to the complement of the zero-extended
      complement of `v`. */
  lemma NegativeSignExtend(v: Word, n: nat)
    requires 0 < |v| < n && v[|v| - 1]
    ensures Lit(SignedValue(v), n)[..|v|] == v
  {
    var m := |v|;
    ValueNot(v);
    var s := SignedValue(v);
    assert s < 0;
    assert -s - 1 == Value(Not(v));
    var ext := Convert(Not(v), n);
    assert Lit(s, n) == Not(ext);
    assert ext[..m] == Not(v);
  }

  /** `get_<name>()`: `(T)Base::get<start, bit_length<T>()>()`. The result is
      the pattern held by the field's bits. */
  function GetField(b: Bits, f: Field): (v: Word)
    requires b.Valid() && FieldFits(b.width, f)
    ensures |v| == BitLength(f.ty)
    ensures forall i :: 0 <= i < |v| ==> v[i] == b.data[f.start + i]
  {
    var x := GetRange(b, f.start, BitLength(f.ty));
    ToFieldOfNarrowWord(x, f.ty);
    ToField(x, f.ty)
  }

  /** Converting a word with no set bit at or above `bit_length<T>()` to `T`
      keeps its low bits. */
  lemma ToFieldOfNarrowWord(x: Word, t: ValueType)
    requires |x| > BitLength(t)
    requires forall i :: BitLength(t) <= i < |x| ==> !x[i]
    ensures forall i :: 0 <= i < BitLength(t) ==> ToField(x, t)[i] == x[i]
  {
    if t == Bool && !x[0] {
      assert x == Zeros(|x|);
    }
  }

  /** `set_<name>(val)`: `Base::set<start, bit_length<T>()>(val)`. */
  function SetField(b: Bits, f: Field, v: Word): (r: Bits)
    requires b.Valid() && FieldFits(b.width, f) && |v| == BitLength(f.ty)
    ensures r.Valid() && r.width == b.width
  {
    SetRange(b, f.start, BitLength(f.ty), FromField(v, f.ty, b.width.Size()))
  }

  /** A field reads back exactly the value last written to it, whatever its
      type: the conversions on the way in and out cancel. */
  lemma GetFieldAfterSet(b: Bits, f: Field, v: Word)
    requires b.Valid() && FieldFits(b.width, f) && |v| == BitLength(f.ty)
    ensures GetField(SetField(b, f, v), f) == v
  {
    var x := FromField(v, f.ty, b.width.Size());
    assert forall i :: 0 <= i < |v| ==> x[i] == x[..|v|][i];
  }

  /** A bool field reads back the bool written to it. */
  lemma BoolFieldRoundTrip(b: Bits, start: nat, flag: bool)
    requires b.Valid() && FieldFits(b.width, Field(Bool, start))
    ensures GetField(SetField(b, Field(Bool, start), [flag]), Field(Bool, start)) == [flag]
    ensures SetField(b, Field(Bool, start), [flag]).data[start] == flag
  {
    GetFieldAfterSet(b, Field(Bool, start), [flag]);
  }

  // ---------------------------------------------------------------------------
  // Records: several fields sharing one word

  predicate FieldsDisjoint(f: Field, g: Field) {
    Disjoint(f.start, BitLength(f.ty), g.start, BitLength(g.ty))
  }

  /** A record declared as a list of fields over a word of width `w`: every
      field fits and no two overlap. */
  predicate WellFormed(w: Width, layout: seq<Field>) {
    && (forall i :: 0 <= i < |layout| ==> FieldFits(w, layout[i]))
    && (forall i, j :: 0 <= i < |layout| && 0 <= j < |layout| && i != j ==>
          FieldsDisjoint(layout[i], layout[j]))
  }

  /** In a well-formed record, setting one field leaves every other field's
      value unchanged, and the field itself reads back the value set. */
  lemma SetFieldInRecord(b: Bits, layout: seq<Field>, i: nat, v: Word)
    requires b.Valid() && WellFormed(b.width, layout)
    requires i < |layout| && |v| == BitLength(layout[i].ty)
    ensures GetField(SetField(b, layout[i], v), layout[i]) == v
    ensures forall j :: 0 <= j < |layout| && j != i ==>
      GetField(SetField(b, layout[i], v), layout[j]) == GetField(b, layout[j])
  {
    GetFieldAfterSet(b, layout[i], v);
    var f := layout[i];
    var r := SetField(b, f, v);
    forall j | 0 <= j < |layout| && j != i
      ensures GetField(r, layout[j]) == GetField(b, layout[j])
    {
      assert FieldsDisjoint(f, layout[j]);
    }
  }
}
