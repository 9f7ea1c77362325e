/** The header word of an R object: the 16 general-purpose (GP) bits held in
    bits 8..23 of `typedValueInfo`, and the S4 flag, which is GP bit 4. */
module RBaseObject {

  const S4_MASK: bv32 := 1 << 4
  const GP_BITS_MASK_SHIFT: bv32 := 8
  const GP_BITS_MASK: bv32 := 0xFFFF << 8
  const S4_MASK_SHIFTED: bv32 := 1 << (4 + 8)

  // ---------------------------------------------------------------------------
  // The header word as a value

  /** The GP field, shifted down. */
  function GPBitsOf(info: bv32): (g: bv32)
    ensures g <= 0xFFFF
  {
    (info & GP_BITS_MASK) >> GP_BITS_MASK_SHIFT
  }

  /** The header with its GP field replaced by `gpbits` (shifted up, not masked). */
  function WithGPBits(info: bv32, gpbits: bv32): bv32
  {
    (info & !GP_BITS_MASK) | (gpbits << GP_BITS_MASK_SHIFT)
  }

  predicate S4Of(info: bv32)
  {
    info & S4_MASK_SHIFTED != 0
  }

  function WithS4(info: bv32): bv32
  {
    info | S4_MASK_SHIFTED
  }

  function WithoutS4(info: bv32): bv32
  {
    info & !S4_MASK_SHIFTED
  }

  /** A GP value that fits in 16 bits reads back unchanged, and the bits outside
      the GP field are kept. */
  lemma GPBitsRoundTrip(info: bv32, gpbits: bv32)
    requires gpbits <= 0xFFFF
    ensures GPBitsOf(WithGPBits(info, gpbits)) == gpbits
    ensures WithGPBits(info, gpbits) & !GP_BITS_MASK == info & !GP_BITS_MASK
  {
  }

  /** Writing the GP field back as it was read leaves the header unchanged. */
  lemma GPBitsRewrite(info: bv32)
    ensures WithGPBits(info, GPBitsOf(info)) == info
  {
  }

  /** A GP value wider than 16 bits is not masked before the shift: its bit 16 lands
      in bit 24 of the header, outside the GP field. */
  lemma WideGPBitsSpill()
    ensures WithGPBits(0, 0x1_0000) == 0x100_0000
    ensures GPBitsOf(WithGPBits(0, 0x1_0000)) == 0
  {
  }

  /** The S4 flag is bit 4 of the GP field. */
  lemma S4IsGPBit4(info: bv32)
    ensures S4Of(info) <==> GPBitsOf(info) & S4_MASK != 0
  {
  }

  /** Setting the S4 flag makes it true and keeps every other bit. */
  lemma SetS4Effect(info: bv32)
    ensures S4Of(WithS4(info))
    ensures WithS4(info) & !S4_MASK_SHIFTED == info & !S4_MASK_SHIFTED
  {
  }

  /** Clearing the S4 flag makes it false and keeps every other bit. */
  lemma UnsetS4Effect(info: bv32)
    ensures !S4Of(WithoutS4(info))
    ensures WithoutS4(info) & !S4_MASK_SHIFTED == info & !S4_MASK_SHIFTED
  {
  }

  /** Setting and clearing the S4 flag are each idempotent. */
  lemma S4Idempotent(info: bv32)
    ensures WithS4(WithS4(info)) == WithS4(info)
    ensures WithoutS4(WithoutS4(info)) == WithoutS4(info)
  {
  }

  // ---------------------------------------------------------------------------
  // The object

  /** The kinds of object that treat the header write specially. */
  datatype ObjectKind = Promise | ArgsValuesAndNames | OtherObject

  /** Outcome of a header write: done, or the internal "should not reach here" error. */
  datatype Outcome = Done | ShouldNotReachHere

  class RObject {
    const kind: ObjectKind
    var typedValueInfo: bv32

    constructor (kind: ObjectKind)
      ensures this.kind == kind && typedValueInfo == 0
    {
      this.kind := kind;
      typedValueInfo := 0;
    }

    function GetTypedValueInfo(): bv32
      reads this
    {
      typedValueInfo
    }

    function GetGPBits(): (g: bv32)
      reads this
      ensures g <= 0xFFFF
    {
      GPBitsOf(typedValueInfo)
    }

    /** The S4 flag, read from the header: bit 4 of the object's GP bits. */
    predicate IsS4(): (b: bool)
      reads this
      ensures b <==> GetGPBits() & S4_MASK != 0
    {
      S4IsGPBit4(typedValueInfo);
      S4Of(typedValueInfo)
    }

    /** Stores the header, except that a promise ignores the write and an
        args-values-and-names object fails with an internal error. */
    method SetTypedValueInfo(value: bv32) returns (r: Outcome)
      modifies this
      ensures kind == ArgsValuesAndNames ==> r == ShouldNotReachHere && typedValueInfo == old(typedValueInfo)
      ensures kind == Promise ==> r == Done && typedValueInfo == old(typedValueInfo)
      ensures kind == OtherObject ==> r == Done && typedValueInfo == value
    {
      if kind == ArgsValuesAndNames {
        return ShouldNotReachHere;
      }
      if kind == Promise {
        return Done;
      }
      typedValueInfo := value;
      return Done;
    }

    method SetGPBits(gpbits: bv32) returns (r: Outcome)
      modifies this
      ensures kind == OtherObject ==> r == Done && typedValueInfo == WithGPBits(old(typedValueInfo), gpbits)
      ensures kind == OtherObject && gpbits <= 0xFFFF ==>
        GetGPBits() == gpbits && typedValueInfo & !GP_BITS_MASK == old(typedValueInfo) & !GP_BITS_MASK
      ensures kind != OtherObject ==> typedValueInfo == old(typedValueInfo)
      ensures kind == ArgsValuesAndNames <==> r == ShouldNotReachHere
    {
      r := SetTypedValueInfo(WithGPBits(GetTypedValueInfo(), gpbits));
      if kind == OtherObject && gpbits <= 0xFFFF {
        GPBitsRoundTrip(old(typedValueInfo), gpbits);
      }
    }

    method SetS4() returns (r: Outcome)
      modifies this
      ensures kind == OtherObject ==> r == Done && IsS4() && typedValueInfo == WithS4(old(typedValueInfo))
      ensures kind != OtherObject ==> typedValueInfo == old(typedValueInfo)
      ensures kind == ArgsValuesAndNames <==> r == ShouldNotReachHere
    {
      r := SetTypedValueInfo(WithS4(GetTypedValueInfo()));
      SetS4Effect(old(typedValueInfo));
    }

    method UnsetS4() returns (r: Outcome)
      modifies this
      ensures kind == OtherObject ==> r == Done && !IsS4() && typedValueInfo == WithoutS4(old(typedValueInfo))
      ensures kind != OtherObject ==> typedValueInfo == old(typedValueInfo)
      ensures kind == ArgsValuesAndNames <==> r == ShouldNotReachHere
    {
      r := SetTypedValueInfo(WithoutS4(GetTypedValueInfo()));
      UnsetS4Effect(old(typedValueInfo));
    }
  }
}
