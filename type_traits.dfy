/** The static table of element-type traits and the lookups that index it. */
module TypeTraits {

  /** `TensorType`; its discriminants are 0, 1 and 2 in declaration order. */
  datatype TensorType = TensorUnknown | TensorTypeF32 | TensorTypeF16

  /** `tensor_type as usize`. */
  function Discriminant(t: TensorType): nat
  {
    match t
    case TensorUnknown => 0
    case TensorTypeF32 => 1
    case TensorTypeF16 => 2
  }

  /** Number of entries in the trait table (FEML_TYPE_COUNT). */
  const FEML_TYPE_COUNT: nat := 2

  datatype FemlTypeTraits = FemlTypeTraits(
    typeName: string,
    blckSize: int,
    blkSizeInterleave: int,
    typeSize: nat,
    isQuantized: bool)

  /** TYPE_TRAITS: f32 (4 bytes) then f16 (2 bytes), both one element per block. */
  const TYPE_TRAITS: seq<FemlTypeTraits> := [
    FemlTypeTraits("f32", 1, 1, 4, false),
    FemlTypeTraits("f16", 1, 1, 2, false)
  ]

  /** The table has FEML_TYPE_COUNT entries, all with block size 1 and none quantized. */
  lemma TableShape()
    ensures |TYPE_TRAITS| == FEML_TYPE_COUNT
    ensures TYPE_TRAITS[0].typeName == "f32" && TYPE_TRAITS[0].typeSize == 4
    ensures TYPE_TRAITS[1].typeName == "f16" && TYPE_TRAITS[1].typeSize == 2
    ensures forall i :: 0 <= i < |TYPE_TRAITS| ==>
      TYPE_TRAITS[i].blckSize == 1 && !TYPE_TRAITS[i].isQuantized
  {
  }

  /** `feml_block_size`: the table entry at the discriminant. Indexing a
      fixed-size array out of range panics, so the discriminant must be
      below FEML_TYPE_COUNT: `TensorTypeF16` cannot be looked up. */
  function BlockSize(t: TensorType): (r: int)
    requires Discriminant(t) < FEML_TYPE_COUNT
    ensures r == 1
  {
    TYPE_TRAITS[Discriminant(t)].blckSize
  }

  /** `feml_type_size`: the `type_size` of the entry at the discriminant.
      `TensorUnknown` reads the f32 entry and `TensorTypeF32` the f16 one. */
  function TypeSize(t: TensorType): (r: nat)
    requires Discriminant(t) < FEML_TYPE_COUNT
    ensures t == TensorUnknown ==> r == 4
    ensures t == TensorTypeF32 ==> r == 2
  {
    TYPE_TRAITS[Discriminant(t)].typeSize
  }

  /** `feml_row_size`: bytes of `ne` elements; asserts that `ne` fills whole blocks. */
  function RowSize(t: TensorType, ne: nat): (r: int)
    requires Discriminant(t) < FEML_TYPE_COUNT
    requires ne % BlockSize(t) == 0
    ensures r == TypeSize(t) * ne
  {
    (TypeSize(t) * ne) / BlockSize(t)
  }

  /** The lookup as written is off by one: `TensorTypeF32` gets the
      2-byte f16 entry and `TensorTypeF16` has no entry at all. */
  lemma LookupOffByOne()
    ensures TypeSize(TensorTypeF32) == 2 && TYPE_TRAITS[Discriminant(TensorTypeF32)].typeName == "f16"
    ensures Discriminant(TensorTypeF16) == |TYPE_TRAITS|
  {
  }

  // ---------------------------------------------------------------------
  // Corrected lookup: the table has no entry for TensorUnknown, so the
  // entry of a known type sits one below its discriminant.
  // ---------------------------------------------------------------------

  /** The name each known type is meant to map to. */
  function TypeName(t: TensorType): string
    requires t != TensorUnknown
  {
    if t == TensorTypeF32 then "f32" else "f16"
  }

  function EntryOf(t: TensorType): (e: FemlTypeTraits)
    requires t != TensorUnknown
    ensures e.typeName == TypeName(t)
    ensures e.blckSize == 1
  {
    TYPE_TRAITS[Discriminant(t) - 1]
  }

  function CorrectedTypeSize(t: TensorType): (r: nat)
    requires t != TensorUnknown
    ensures t == TensorTypeF32 ==> r == 4
    ensures t == TensorTypeF16 ==> r == 2
  {
    EntryOf(t).typeSize
  }

  function CorrectedBlockSize(t: TensorType): (r: int)
    requires t != TensorUnknown
    ensures r == 1
  {
    EntryOf(t).blckSize
  }

  function CorrectedRowSize(t: TensorType, ne: nat): (r: int)
    requires t != TensorUnknown
    requires ne % CorrectedBlockSize(t) == 0
    ensures r == CorrectedTypeSize(t) * ne
  {
    (CorrectedTypeSize(t) * ne) / CorrectedBlockSize(t)
  }
}
