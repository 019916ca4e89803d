/** Machine integer ranges, failures and the failure-carrying result type shared by every module. */
module Types {

  const U8_LIMIT: int := 0x100
  const U32_LIMIT: int := 0x1_0000_0000
  /** usize::MAX on a 64-bit target: what an f64 infinity saturates to under `as usize`. */
  const USIZE_MAX: int := 0xFFFF_FFFF_FFFF_FFFF

  type u8 = x: int | 0 <= x < 0x100
  type u32 = x: int | 0 <= x < 0x1_0000_0000
  type u64 = x: int | 0 <= x < 0x1_0000_0000_0000_0000

  /** Every way a run of the tool stops: an explicit `error(..)`/`process::exit`, a failed
      `assert!`, an `unwrap`/`expect` on an error, or an arithmetic panic. */
  datatype Fault =
    | BinToDecFailed      // from_str_radix refused the digit string
    | NotEightBits        // bits_to_byte's length assertion
    | NameTooLong         // 256 - 8*len underflows in gen_headpage
    | HeaderLength        // gen_headpage's 328-bit assertion
    | HeaderTooShort      // parse_headpage indexes past the end of its input
    | UnknownVideoType    // "unreconized video type parameter"
    | Incompatible        // "uncompatible" / "incompatible" dimensions
    | CannotStoreBytes    // "can't store bytes on a frame"
    | Missing             // a VideoInfo field or file fact needed for a derived value is absent
    | NotImplemented      // a video mode whose raster code is not written
    | FrameRead           // OpenCV refused a pixel access, or no frame was left to read
    | FileAccess          // the file at the path could not be opened or its metadata read
    | TooManyBits         // Frame::new's or compute_colors' length assertion
    | BlockIndex          // compute_colors indexes past the last block
    | FrameLength         // decode_video's per-frame length assertion
    | ChecksumFailed      // the hash of a file could not be computed
    | Panic               // integer overflow, underflow or division by zero

  datatype Result<T> = Ok(value: T) | Err(error: Fault)

  datatype Option<T> = None | Some(value: T)

  function Min(a: int, b: int): int { if a < b then a else b }
}
