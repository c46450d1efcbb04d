/** `src/context/context.rs`: a private copy of the bump arena, with the
    same construction and the same append. Its types are private to their
    module but have the same shape, so the descriptors and the
    specification functions of `Arena` are reused here. */
module ArenaPrivate {

  import opened Wrappers
  import opened Arena
  import Pad

  class FemlContext {
    var memorySize: nat
    var memBuffer: seq<bv8>
    var nObjects: int
    var objects: seq<FemlObject>

    ghost predicate Valid()
      reads this
    {
      Packed(objects)
    }

    /** `FemlContext::new` of the private copy. */
    constructor (params: FemlInitParams)
      ensures Valid()
      ensures memorySize == InitMemorySize(params)
      ensures memBuffer == params.memoryBuffer
      ensures nObjects == 0 && objects == []
    {
      memorySize := InitMemorySize(params);
      memBuffer := params.memoryBuffer;
      nObjects := 0;
      objects := [];
    }
  }

  /** `feml_new_object` of the private copy: appends at the bump cursor,
      warns but still appends past the capacity. */
  method NewObject(ctx: FemlContext, objectType: FemlObjectType, size: nat)
    returns (r: Option<FemlObject>, overCapacity: bool)
    requires ctx.Valid()
    modifies ctx`objects
    ensures ctx.Valid()
    ensures r == Some(FemlObject(ObjectEnd(old(ctx.objects)), PaddedSize(size), objectType))
    ensures ctx.objects == old(ctx.objects) + [r.value]
    ensures overCapacity <==> ObjectEnd(old(ctx.objects)) + PaddedSize(size) > ctx.memorySize
  {
    var curEnd := ObjectEnd(ctx.objects);
    var sizeNeeded := Pad.PadMask(size, Pad.FEML_MEM_ALIGN);
    overCapacity := curEnd + sizeNeeded > ctx.memorySize;
    AppendKeepsPacked(ctx.objects, objectType, size);
    ctx.objects := ctx.objects + [FemlObject(curEnd, sizeNeeded, objectType)];
    r := Some(ctx.objects[|ctx.objects| - 1]);
  }
}
