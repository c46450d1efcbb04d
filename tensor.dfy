/** Size, shape and stride arithmetic of `src/common/tensor.rs`. The
    element traits are parameters: the file links trait functions that
    live outside it, so `typeSize`, `blockSize` and the row-size function
    are whatever those return. */
module Tensor {

  import opened Wrappers
  import opened TypeTraits
  import Arena

  /** Dimensions scanned by `feml_nbytes` and bounding `dims` (FEML_MAX_DIMS). */
  const FEML_MAX_DIMS: nat := 3

  /** Bytes of the tensor header placed before inline data (FEML_TENSOR_SIZE). */
  const FEML_TENSOR_SIZE: nat := 336

  /** `[usize; 4]`. */
  type Quad = s: seq<nat> | |s| == 4 witness [0, 0, 0, 0]

  datatype FemlOpType =
    | FemlOpTypeUnknown | FemlOpReshape | FemlOpView | FemlOpPermute | FemlOpTranspose
    | FemlOpCpy | FemlOpSetRows | FemlOpMulMat | FemlOpSoftMaxBack | FemlOpIm2ColBack
    | FemlOpGetRowsBack | FemlOpOutProd

  /** `op_params` of a new tensor: `[0; 16]`. */
  const NO_OP_PARAMS: seq<int> := [0, 0, 0, 0, 0, 0, 0, 0, 0, 0, 0, 0, 0, 0, 0, 0]

  /** `FemlTensor` without its raw `data`, `name` and `extra` pointers. */
  datatype FemlTensor = FemlTensor(
    tensorType: TensorType,
    ne: Quad,
    nb: Quad,
    op: FemlOpType,
    opParams: seq<int>,
    flags: int,
    src: seq<FemlTensor>,
    viewSrc: Option<FemlTensor>,
    viewOffs: int)

  // ---------------------------------------------------------------------
  // feml_nbytes
  // ---------------------------------------------------------------------

  /** One of the first FEML_MAX_DIMS extents is zero (`ne[3]` is not looked at). */
  predicate HasZeroDim(ne: Quad)
  {
    ne[0] == 0 || ne[1] == 0 || ne[2] == 0
  }

  /** The contribution of dimension `i`: `(ne[i] - 1) * nb[i]` when `ne[i] > 1`. */
  function StrideTerm(ne: Quad, nb: Quad, i: nat): nat
    requires i < 4
  {
    if ne[i] > 1 then (ne[i] - 1) * nb[i] else 0
  }

  function StrideSum(ne: Quad, nb: Quad, lo: nat, hi: nat): nat
    requires lo <= hi <= 4
    decreases hi - lo
  {
    if hi == lo then 0 else StrideSum(ne, nb, lo, hi - 1) + StrideTerm(ne, nb, hi - 1)
  }

  /** The byte span `feml_nbytes` reports: 0 for an empty tensor; with one
      element per block, one element plus the stride steps of every
      dimension; otherwise the first row's blocks plus the stride steps of
      the others. Division by a zero block size panics, so a zero block
      size is allowed only when the early return is taken. */
  function NBytesOf(ne: Quad, nb: Quad, blockSize: nat, typeSize: nat): nat
    requires blockSize != 0 || HasZeroDim(ne)
  {
    if HasZeroDim(ne) then 0
    else if blockSize == 1 then typeSize + StrideSum(ne, nb, 0, FEML_MAX_DIMS)
    else ne[0] * nb[0] / blockSize + StrideSum(ne, nb, 1, FEML_MAX_DIMS)
  }

  /** An empty tensor spans no bytes; any other spans at least one element
      (one element per block) or the blocks of its first row. */
  lemma NBytesOfBounds(ne: Quad, nb: Quad, blockSize: nat, typeSize: nat)
    requires blockSize != 0 || HasZeroDim(ne)
    ensures HasZeroDim(ne) ==> NBytesOf(ne, nb, blockSize, typeSize) == 0
    ensures !HasZeroDim(ne) && blockSize == 1 ==> NBytesOf(ne, nb, blockSize, typeSize) >= typeSize
    ensures !HasZeroDim(ne) && blockSize > 1 ==> NBytesOf(ne, nb, blockSize, typeSize) >= ne[0] * nb[0] / blockSize
  {
  }

  /** The stride loop of `feml_nbytes`: adds `(ne[i] - 1) * nb[i]` for
      every dimension `i` from `lo` on whose extent exceeds 1. */
  method AddStrideSteps(ne: Quad, nb: Quad, lo: nat, start: nat) returns (total: nat)
    requires lo <= FEML_MAX_DIMS
    ensures total == start + StrideSum(ne, nb, lo, FEML_MAX_DIMS)
  {
    total := start;
    for i := lo to FEML_MAX_DIMS
      invariant total == start + StrideSum(ne, nb, lo, i)
    {
      if ne[i] > 1 {
        total := total + (ne[i] - 1) * nb[i];
      }
    }
  }

  /** `feml_nbytes`. */
  method NBytes(t: FemlTensor, blockSize: nat, typeSize: nat) returns (nbytes: nat)
    requires blockSize != 0 || HasZeroDim(t.ne)
    ensures nbytes == NBytesOf(t.ne, t.nb, blockSize, typeSize)
  {
    for i := 0 to FEML_MAX_DIMS
      invariant forall j :: 0 <= j < i ==> t.ne[j] > 0
    {
      if t.ne[i] == 0 {
        return 0;
      }
    }
    if blockSize == 1 {
      nbytes := AddStrideSteps(t.ne, t.nb, 0, typeSize);
    } else {
      nbytes := AddStrideSteps(t.ne, t.nb, 1, t.ne[0] * t.nb[0] / blockSize);
    }
  }


  // ---------------------------------------------------------------------
  // feml_new_tensor
  // ---------------------------------------------------------------------

  /** How deep a chain of view sources goes. */
  function ViewDepth(v: Option<FemlTensor>): nat
  {
    match v
    case None => 0
    case Some(t) => 1 + ViewDepth(t.viewSrc)
  }

  /** The tensor at the bottom of a chain of views, and the byte offset
      into it that a view at `offs` into `v` addresses. */
  function ViewRoot(v: Option<FemlTensor>, offs: int): (Option<FemlTensor>, int)
    decreases ViewDepth(v)
  {
    match v
    case None => (None, offs)
    case Some(t) =>
      if t.viewSrc.None? then (v, offs) else ViewRoot(t.viewSrc, offs + t.viewOffs)
  }

  /** The one-level flattening at the top of `feml_new_tensor`: a view of a
      view is redirected to the inner source, its offset added. */
  function FlattenView(v: Option<FemlTensor>, offs: int): (r: (Option<FemlTensor>, int))
    ensures r.0.None? <==> v.None?
    ensures ViewRoot(r.0, r.1) == ViewRoot(v, offs)
    ensures ViewDepth(v) >= 2 ==> ViewDepth(r.0) == ViewDepth(v) - 1
    ensures ViewDepth(v) < 2 ==> r == (v, offs)
  {
    match v
    case None => (v, offs)
    case Some(t) =>
      match t.viewSrc
      case None => (v, offs)
      case Some(inner) => (t.viewSrc, offs + t.viewOffs)
  }

  /** Flattening is one level only: a view three deep is still a view of a
      view afterwards. */
  lemma FlattenOneLevelOnly(a: FemlTensor, b: FemlTensor, c: FemlTensor, offs: int)
    requires b.viewSrc == Some(a) && c.viewSrc == Some(b) && a.viewSrc.None?
    ensures FlattenView(Some(c), offs) == (Some(b), offs + c.viewOffs)
    ensures FlattenView(Some(c), offs).0.value.viewSrc.Some?
  {
  }

  function Product(ne: seq<nat>, lo: nat, hi: nat): nat
    requires lo <= hi <= |ne|
    decreases hi - lo
  {
    if hi == lo then 1 else Product(ne, lo, hi - 1) * ne[hi - 1]
  }

  /** The data size loop: one row times every further extent. */
  method DataSize(rowBytes: nat, dims: nat, ne: seq<nat>) returns (dataSize: nat)
    requires 1 <= dims <= |ne|
    ensures dataSize == rowBytes * Product(ne, 1, dims)
  {
    dataSize := rowBytes;
    for i := 1 to dims
      invariant dataSize == rowBytes * Product(ne, 1, i)
    {
      dataSize := dataSize * ne[i];
    }
  }

  /** Bytes reserved for inline data: all of it only for a tensor that is
      not a view and whose context has no caller buffer. */
  function ObjAllocSize(viewSrc: Option<FemlTensor>, bufferEmpty: bool, dataSize: nat): (r: nat)
    ensures viewSrc.Some? ==> r == 0
    ensures !bufferEmpty ==> r == 0
    ensures viewSrc.None? && bufferEmpty ==> r == dataSize
  {
    if viewSrc.None? && bufferEmpty then dataSize else 0
  }

  /** The extents the new tensor gets: the first `dims` requested ones, 1 after. */
  function Extents(ne: seq<nat>, dims: nat): (r: Quad)
    requires dims <= |ne| && dims <= 4
    ensures forall i :: 0 <= i < dims ==> r[i] == ne[i]
    ensures forall i :: dims <= i < 4 ==> r[i] == 1
  {
    seq(4, i requires 0 <= i < 4 => if i < dims then ne[i] else 1)
  }

  /** The extent loop of `feml_new_tensor`: start from all ones and copy
      the first `dims` requested extents. */
  method ShapeOf(ne: seq<nat>, dims: nat) returns (shape: Quad)
    requires dims <= |ne| && dims <= 4
    ensures shape == Extents(ne, dims)
  {
    shape := [1, 1, 1, 1];
    for i := 0 to dims
      invariant forall j :: 0 <= j < i ==> shape[j] == ne[j]
      invariant forall j :: i <= j < 4 ==> shape[j] == 1
    {
      shape := shape[i := ne[i]];
    }
  }

  /** Row-major strides: element, row, plane; `nb[3]` is left at 0. */
  function RowMajorStrides(ne: Quad, typeSize: nat, blockSize: nat): (nb: Quad)
    requires blockSize != 0
  {
    var nb1 := typeSize * (ne[0] / blockSize);
    [typeSize, nb1, nb1 * ne[1], 0]
  }

  /** The element stride is the type size and `nb[3]` stays 0; with one
      element per block the row and plane strides are the contiguous
      products of the lower extents. */
  lemma RowMajorStridesContiguous(ne: Quad, typeSize: nat, blockSize: nat)
    requires blockSize != 0
    ensures RowMajorStrides(ne, typeSize, blockSize)[0] == typeSize
    ensures RowMajorStrides(ne, typeSize, blockSize)[3] == 0
    ensures blockSize == 1 ==> RowMajorStrides(ne, typeSize, blockSize)[1] == typeSize * ne[0]
    ensures blockSize == 1 ==> RowMajorStrides(ne, typeSize, blockSize)[2] == typeSize * (ne[0] * ne[1])
  {
    if blockSize == 1 {
      assert ne[0] / blockSize == ne[0];
      assert (typeSize * ne[0]) * ne[1] == typeSize * (ne[0] * ne[1]);
    }
  }

  /** The stride computation of `feml_new_tensor`. */
  method Strides(ne: Quad, typeSize: nat, blockSize: nat) returns (nb: Quad)
    requires blockSize != 0
    ensures nb == RowMajorStrides(ne, typeSize, blockSize)
  {
    nb := [0, 0, 0, 0];
    nb := nb[0 := typeSize];
    nb := nb[1 := nb[0] * (ne[0] / blockSize)];
    for i := 2 to FEML_MAX_DIMS
      invariant nb[0] == typeSize && nb[1] == typeSize * (ne[0] / blockSize) && nb[3] == 0
      invariant forall j :: 2 <= j < i ==> nb[j] == nb[j - 1] * ne[j - 1]
    {
      nb := nb[i := nb[i - 1] * ne[i - 1]];
    }
  }

  lemma StepUp(x: nat, n: nat)
    requires n >= 1
    ensures x + (n - 1) * x == n * x
  {
  }

  /** With one element per block and row-major strides, `feml_nbytes` is
      exactly the element size times the number of elements. */
  lemma ContiguousNBytes(ne: Quad, typeSize: nat)
    ensures NBytesOf(ne, RowMajorStrides(ne, typeSize, 1), 1, typeSize)
            == typeSize * ne[0] * ne[1] * ne[2]
  {
    var nb := RowMajorStrides(ne, typeSize, 1);
    if !HasZeroDim(ne) {
      var a := typeSize;
      var b := a * ne[0];
      var c := b * ne[1];
      assert nb == [a, b, c, 0];
      assert StrideTerm(ne, nb, 0) == (ne[0] - 1) * a;
      assert StrideTerm(ne, nb, 1) == (ne[1] - 1) * b;
      assert StrideTerm(ne, nb, 2) == (ne[2] - 1) * c;
      StepUp(a, ne[0]);
      StepUp(b, ne[1]);
      StepUp(c, ne[2]);
      assert a * ne[0] == ne[0] * a && b * ne[1] == ne[1] * b && c * ne[2] == ne[2] * c;
    } else {
      assert ne[0] == 0 || ne[1] == 0 || ne[2] == 0;
      assert typeSize * ne[0] * ne[1] * ne[2] == 0;
    }
  }

  /** `feml_new_tensor`, without placing the header and the data pointer in
      the context's buffer. The tensor type must be known and `dims` is 1
      or 2; `ne` must have at least `dims` entries. */
  /** The arena request of `feml_new_tensor`: the header plus the inline
      data bytes, appended as one tensor object. */
  method PlaceTensor(ctx: Arena.FemlContext, src: Option<FemlTensor>, dataSize: nat)
    requires ctx.Valid()
    modifies ctx`objects
    ensures ctx.Valid()
    ensures var request := FEML_TENSOR_SIZE + ObjAllocSize(src, old(|ctx.memBuffer|) == 0, dataSize);
            ctx.objects == old(ctx.objects)
              + [Arena.FemlObject(Arena.ObjectEnd(old(ctx.objects)), Arena.PaddedSize(request),
                                  Arena.FemlObjectTypeTensor)]
  {
    var request := FEML_TENSOR_SIZE + ObjAllocSize(src, |ctx.memBuffer| == 0, dataSize);
    var obj, _ := Arena.NewObject(ctx, Arena.FemlObjectTypeTensor, request);
  }

  method NewTensor(ctx: Arena.FemlContext, tensorType: TensorType, dims: nat, ne: seq<nat>,
                   viewSrc: Option<FemlTensor>, viewOffs: int,
                   typeSize: nat, blockSize: nat, rowSize: nat -> nat)
    returns (t: FemlTensor)
    requires ctx.Valid()
    requires tensorType != TensorUnknown
    requires 0 < dims < FEML_MAX_DIMS
    requires dims <= |ne|
    requires blockSize != 0
    modifies ctx`objects
    ensures ctx.Valid()
    ensures var flat := FlattenView(viewSrc, viewOffs);
            var request := FEML_TENSOR_SIZE
              + ObjAllocSize(flat.0, |ctx.memBuffer| == 0, rowSize(ne[0]) * Product(ne, 1, dims));
            ctx.objects == old(ctx.objects)
              + [Arena.FemlObject(Arena.ObjectEnd(old(ctx.objects)), Arena.PaddedSize(request),
                                  Arena.FemlObjectTypeTensor)]
    ensures t.tensorType == tensorType
    ensures t.ne == Extents(ne, dims)
    ensures t.nb == RowMajorStrides(t.ne, typeSize, blockSize)
    ensures t.op == FemlOpTypeUnknown && t.opParams == NO_OP_PARAMS && t.flags == 0 && t.src == []
    ensures (t.viewSrc, t.viewOffs) == FlattenView(viewSrc, viewOffs)
  {
    var flat := FlattenView(viewSrc, viewOffs);
    var src, offs := flat.0, flat.1;
    var dataSize := DataSize(rowSize(ne[0]), dims, ne);
    PlaceTensor(ctx, src, dataSize);
    var shape := ShapeOf(ne, dims);
    var nb := Strides(shape, typeSize, blockSize);
    t := FemlTensor(tensorType, shape, nb, FemlOpTypeUnknown, NO_OP_PARAMS, 0, [], src, offs);
  }
}
