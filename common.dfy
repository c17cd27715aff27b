/** Values shared by both conversion directions: bytes of a raw heightmap
    file and the ways a conversion can fail. */
module Common {

  /** One byte of a raw file, as `bytes` indexing yields it. */
  type Byte = b: int | 0 <= b < 256

  /** The failures the converter can run into.
      - ShapeError: numpy's `reshape` refused a flat buffer whose length is
        not rows * columns.
      - OverflowError: `int.to_bytes(2, "little")` refused a value outside
        0..65535.
      - ChannelIndexError: `[:, :, 0]` on an image with no channel at all. */
  datatype Error =
    | ShapeError(count: nat)
    | OverflowError(value: int)
    | ChannelIndexError

  datatype Result<+T> = Ok(value: T) | Err(error: Error)

  /** How a step that only writes ends: either it ran to completion or it
      stopped at the first error. */
  datatype Outcome = Pass | Fail(error: Error)
}
