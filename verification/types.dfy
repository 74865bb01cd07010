/** Types shared by all the components. */
module Types {

  datatype Option<+T> = None | Some(value: T)

  // An octet of the queue's storage.
  type byte = x: int | 0 <= x < 256

  /** Conversion to `uint32_t`. */
  function U32(x: int): nat {
    x % 0x1_0000_0000
  }

  // The result codes the modelled functions return.
  datatype Error = Ok | Timeout | NoMem | Invalid | Failure
}
