/** The bump arena of `src/common/context.rs`: a declared capacity, a byte
    buffer, and an append-only list of packed object descriptors. */
module Arena {

  import opened Wrappers
  import Pad

  datatype FemlObjectType = FemlObjectTypeTensor | FemlObjectTypeGraph | FemlObjectTypeBuffer

  datatype FemlObject = FemlObject(offset: nat, size: nat, objectType: FemlObjectType)

  datatype FemlInitParams = FemlInitParams(memorySize: nat, memoryBuffer: seq<bv8>)

  /** The capacity `new` records: a zero request becomes FEML_MEM_ALIGN,
      anything else is kept as it is (the round-up is not applied, with
      or without a caller buffer). */
  function InitMemorySize(params: FemlInitParams): (r: nat)
    ensures r > 0
    ensures params.memorySize == 0 ==> r == Pad.FEML_MEM_ALIGN
    ensures params.memorySize != 0 ==> r == params.memorySize
  {
    var requested := if params.memorySize == 0 then Pad.FEML_MEM_ALIGN else params.memorySize;
    if |params.memoryBuffer| != 0 then requested else requested
  }

  /** Where the next object goes: the end of the last one, or 0. */
  function ObjectEnd(objects: seq<FemlObject>): (r: nat)
  {
    if objects == [] then 0 else objects[|objects| - 1].offset + objects[|objects| - 1].size
  }

  /** The bump cursor starts at 0 and moves to the end of the object just
      appended. */
  lemma ObjectEndAfterAppend(objects: seq<FemlObject>, o: FemlObject)
    ensures ObjectEnd([]) == 0
    ensures ObjectEnd(objects + [o]) == o.offset + o.size
  {
    assert (objects + [o])[|objects|] == o;
  }

  /** The size recorded for a request of `size` bytes. */
  function PaddedSize(size: nat): (r: nat)
    ensures size <= r < size + Pad.FEML_MEM_ALIGN
    ensures r % Pad.FEML_MEM_ALIGN == 0
  {
    Pad.MemAlignIsPowerOfTwo();
    Pad.PadMaskBounds(size, Pad.FEML_MEM_ALIGN);
    Pad.PadMask(size, Pad.FEML_MEM_ALIGN)
  }

  /** Objects are laid end to end from offset 0. */
  ghost predicate Packed(objects: seq<FemlObject>)
  {
    (objects != [] ==> objects[0].offset == 0)
    && (forall i :: 0 < i < |objects| ==> objects[i].offset == objects[i - 1].offset + objects[i - 1].size)
    && (forall i :: 0 <= i < |objects| ==> objects[i].size % Pad.FEML_MEM_ALIGN == 0)
  }

  function TotalSize(objects: seq<FemlObject>): nat
    decreases |objects|
  {
    if objects == [] then 0 else TotalSize(objects[..|objects| - 1]) + objects[|objects| - 1].size
  }

  /** In a packed list the bump cursor is the sum of the object sizes, so
      no two objects overlap and nothing is skipped. */
  lemma {:induction false} PackedEndIsTotal(objects: seq<FemlObject>)
    requires Packed(objects)
    ensures ObjectEnd(objects) == TotalSize(objects)
    ensures ObjectEnd(objects) % Pad.FEML_MEM_ALIGN == 0
    ensures forall i :: 0 <= i < |objects| ==> objects[i].offset + objects[i].size <= ObjectEnd(objects)
    decreases |objects|
  {
    if objects != [] {
      var init := objects[..|objects| - 1];
      var last := objects[|objects| - 1];
      assert forall i :: 0 <= i < |init| ==> init[i] == objects[i];
      assert Packed(init);
      PackedEndIsTotal(init);
      assert last.offset == ObjectEnd(init);
      SumOfMultiples(ObjectEnd(init), last.size);
    }
  }

  lemma SumOfMultiples(a: nat, b: nat)
    requires a % Pad.FEML_MEM_ALIGN == 0 && b % Pad.FEML_MEM_ALIGN == 0
    ensures (a + b) % Pad.FEML_MEM_ALIGN == 0
  {
    var qa, qb := a / 16, b / 16;
    assert a == qa * 16 && b == qb * 16;
    Pad.DivModUnique(a + b, 16, qa + qb, 0);
  }

  /** Appending the object `feml_new_object` builds keeps the list packed. */
  lemma AppendKeepsPacked(objects: seq<FemlObject>, objectType: FemlObjectType, size: nat)
    requires Packed(objects)
    ensures Packed(objects + [FemlObject(ObjectEnd(objects), PaddedSize(size), objectType)])
  {
  }

  class FemlContext {
    var memorySize: nat
    var memBuffer: seq<bv8>
    var nObjects: int
    var objects: seq<FemlObject>

    ghost predicate Valid()
      reads this
    {
      Packed(objects)
    }

    /** `FemlContext::new`: the capacity of InitMemorySize, the caller's
        buffer, and no objects. */
    constructor (params: FemlInitParams)
      ensures Valid()
      ensures memorySize == InitMemorySize(params)
      ensures memBuffer == params.memoryBuffer
      ensures nObjects == 0 && objects == []
    {
      memorySize := InitMemorySize(params);
      memBuffer := params.memoryBuffer;
      nObjects := 0;
      objects := [];
    }
  }

  /** `feml_new_object`: appends an object at the bump cursor with its size
      padded to FEML_MEM_ALIGN. Running past the capacity only prints a
      warning (reported here as `overCapacity`); the object is appended and
      returned all the same, and `n_objects` is left as it was. */
  method NewObject(ctx: FemlContext, objectType: FemlObjectType, size: nat)
    returns (r: Option<FemlObject>, overCapacity: bool)
    requires ctx.Valid()
    modifies ctx`objects
    ensures ctx.Valid()
    ensures r == Some(FemlObject(ObjectEnd(old(ctx.objects)), PaddedSize(size), objectType))
    ensures ctx.objects == old(ctx.objects) + [r.value]
    ensures overCapacity <==> ObjectEnd(old(ctx.objects)) + PaddedSize(size) > ctx.memorySize
  {
    var curEnd := ObjectEnd(ctx.objects);
    var sizeNeeded := Pad.PadMask(size, Pad.FEML_MEM_ALIGN);
    overCapacity := curEnd + sizeNeeded > ctx.memorySize;
    var objNew := FemlObject(curEnd, sizeNeeded, objectType);
    AppendKeepsPacked(ctx.objects, objectType, size);
    ctx.objects := ctx.objects + [objNew];
    r := Some(ctx.objects[|ctx.objects| - 1]);
  }

  /** A 16-byte arena asked for a 20-byte object: the object is padded to
      32 bytes, the capacity is exceeded, and the object is still appended. */
  method OverCapacityStillAppends() returns (r: Option<FemlObject>, overCapacity: bool, count: nat)
    ensures r == Some(FemlObject(0, 32, FemlObjectTypeTensor))
    ensures overCapacity && count == 1
  {
    var ctx := new FemlContext(FemlInitParams(16, []));
    r, overCapacity := NewObject(ctx, FemlObjectTypeTensor, 20);
    count := |ctx.objects|;
  }
}
