/** The per-worker byte source: a fixed-length buffer and its fill policy. */
module DataBuffers {
  import opened Native

  /** The fill policy, chosen once per run. */
  datatype DataType = Random | Zeroes

  /**
    `rng.fill_bytes`: overwrites every byte of `a` with some value. Which
    values the generator produces is not modelled.
   */
  method FillBytes(a: array<byte>)
    modifies a
  {
    var i := 0;
    while i < a.Length
      invariant 0 <= i <= a.Length
    {
      a[i] := *;
      i := i + 1;
    }
  }

  class DataBuffer {
    var data: array<byte>
    /** The fill policy, fixed when the buffer is made. */
    const dataType: DataType

    /** A `Zeroes` buffer holds nothing but zero bytes. */
    ghost predicate Valid()
      reads this, data
    {
      dataType == Zeroes ==> AllZero(data[..])
    }

    /** `DataBuffer::new`: `len` zero bytes and the given policy. */
    constructor (dataType: DataType, len: usize)
      ensures Valid()
      ensures fresh(data)
      ensures this.dataType == dataType
      ensures data.Length == len && AllZero(data[..])
    {
      this.data := new byte[len](_ => 0);
      this.dataType := dataType;
    }

    /**
      `next_bytes`: under `Random` refills the same buffer in place; under
      `Zeroes` leaves it as it is. Either way the view returned is the buffer
      itself, and neither the buffer's identity nor its length changes (the
      policy is a constant).
     */
    method NextBytes() returns (view: array<byte>)
      requires Valid()
      modifies data
      ensures Valid()
      ensures view == data && data == old(data) && data.Length == old(data.Length)
      ensures dataType == Zeroes ==> data[..] == old(data[..]) && AllZero(view[..])
    {
      match dataType {
        case Random =>
          FillBytes(data);
        case Zeroes =>
      }
      view := data;
    }
  }
}
