/** `MemoryBuffer`: an owned, zero-filled byte buffer with its size. */
module Buf {

  type byte = bv8

  datatype MemoryBuffer = MemoryBuffer(size: nat, buf: seq<byte>)
  {
    /** `is_empty` asks the byte vector, not the `size` field. */
    predicate IsEmpty()
      ensures IsEmpty() <==> buf == []
    {
      |buf| == 0
    }
  }

  /** `MemoryBuffer::new(size)`: `size` zero bytes. */
  function NewBuffer(size: nat): (m: MemoryBuffer)
    ensures m.size == size
    ensures |m.buf| == size
    ensures forall i :: 0 <= i < |m.buf| ==> m.buf[i] == 0
  {
    MemoryBuffer(size, seq(size, _ => 0))
  }

  /** A buffer built by `new` is empty exactly when it was asked for no bytes. */
  lemma NewBufferEmpty(size: nat)
    ensures NewBuffer(size).IsEmpty() <==> size == 0
  {
  }
}
