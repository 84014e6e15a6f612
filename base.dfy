/** Shared vocabulary: optional values and the byte type of the archive buffer. */
module Base {

  /** The conventional present-or-absent value (Python's `None` or a value). */
  datatype Option<+T> = None | Some(value: T)

  /** One byte of the archive as read in binary mode. */
  type byte = b: int | 0 <= b < 256

  /** 16-bit unsigned integer stored little-endian at `data[i]`, `data[i + 1]`
      (the `<H` format of Python's `struct`). */
  function U16LE(data: seq<byte>, i: nat): (v: nat)
    requires i + 2 <= |data|
    ensures v < 0x1_0000
    ensures v % 256 == data[i] && v / 256 == data[i + 1]
  {
    data[i] as int + 256 * (data[i + 1] as int)
  }
}
