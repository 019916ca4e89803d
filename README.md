# ytstorage in Dafny

ytstorage stores a file in a video. The file's bits are arranged row by row into square blocks of
`pixel_size` pixels, one bit per block, so the video can survive upload to a video site. This
project is a Dafny model of the program's core, with proofs about that model:

- **bit conversions** (`src/convert.rs`);
- **the 328-bit header page** (`src/head.rs`): head.dfy, module `Head`. It holds the file name,
  block size, unused-byte count and frame count;
- **the session record `VideoInfo` and its lazy accessors** (`src/main.rs`): session.dfy, module
  `Session`. This module also holds the block-size search `max_pixel_size`, `gcd`,
  `get_bytes_per_frame` and the video-type names;
- **the block raster of a frame** (`src/frame.rs`);
- **the encoder `create_video`** (`src/encode.rs`);
- **the decoder `decode_video` and `decode_black_and_white`** (`src/decode.rs`).

The remaining files:

- roundtrip.dfy, module `RoundTrip`: relates the encoder to the decoder. It also holds the two
  places where the decoder does not read back what the encoder wrote, each next to its corrected
  form.
- types.dfy and arith.dfy: shared types (`u8`, `u32`, `Result`, `Option`, the `Fault` enum) and
  small arithmetic lemmas.

Pure code becomes functions and lemmas. Code that mutates state becomes classes and methods:

- a `Frame` owns an `array2<Bgr>` image that `compute_colors` paints;
- `VideoInfo` caches its derived values in `Option` fields;
- the output file is an `OutputFile` whose contents `write_all_at` overwrites.

Each loop of the source is a `while` loop with invariants. It is proved against the
specification function the lemmas reason about.

How the program's failure paths become `Err` results:

- Exits such as `error(...)` and `process::exit`, and failed `assert!`s, become `Err` results
  with a `Fault` naming the cause.
- Arithmetic panics become `Err(Panic)`. These are `u32` overflow, division by a zero block
  size, and `usize` subtraction below zero. This follows a build with overflow checks on, such
  as Rust's debug profile; "## Left out" says what a release build does instead.
- The encoder's result is the whole list of pages or one `Err`. When a payload `Frame::new`
  fails, the header frame is already in the output video, but `Encode.EncodeFrames` returns
  only the `Err` and so drops it.
- Reading a pixel outside the captured frame becomes `Err(FrameRead)`.

Other modelling choices:

- Integers are unbounded. Each `u32` product or cast is written out as a check or a `%`.
- OpenCV, the file system and sha256 are parameters:
  - a captured video is a sequence of value images `seq<seq<Bgr>>`. `Decode.Snapshot` gives the
    image a painted frame holds when `VideoWriter::write` copies it;
  - the file system is a function from path to existing contents;
  - the digest is a function on the extracted bytes.

## Model

| member | source | states |
|---|---|---|
| Convert.DecToBin | src/convert.rs:7-22 | The bits are `format!("{:b}")` of x left-padded with zeros to n digits. Their value is x. There are exactly n of them when n ≥ 1 and x < 2^n, and more when x does not fit |
| Convert.BinToDec | src/convert.rs:24-40 | Succeeds exactly when the bits are non-empty and their value fits u32, since from_str_radix rejects "" and overflow. The result is the bits read most-significant first. Otherwise it fails with BinToDecFailed |
| Convert.ByteToBits | src/convert.rs:42-55 | Returns exactly eight bits whose value is the byte |
| Convert.BitsToByte | src/convert.rs:57-68 | Succeeds exactly when given eight bits (the assertion), returning their value. Any other length fails |
| Convert.PagesToBytes | src/convert.rs:70-84 | Returns one byte per chunk of eight bits, in order. A short last chunk becomes a byte of its own value. Every byte's bits give back that many bytes |
| Convert.ChunkToByte | src/convert.rs:73-80 | The digits of one chunk of at most eight bits, read in base 2, give the byte that chunk stands for |
| Convert.PackBytesToBits | src/convert.rs:70-84 | pages_to_bytes undoes byte_to_bits on any byte string |
| Convert.BinToStr | src/convert.rs:86-97 | Succeeds exactly when the bits are whole bytes; a short last chunk reaches the assertion of bits_to_byte. The result has one character per non-zero byte |
| Convert.NameOfBytes | src/convert.rs:86-97 | Decoding the bits of a byte string drops its zero bytes and keeps the others as characters, in order |
| Convert.BinaryValue | src/convert.rs:10 | The shortest binary numeral of x has value x |
| Convert.FixedWidthProps | src/convert.rs:11-13 | Padding keeps the value. The padded numeral has n digits when x < 2^n and more than n when x is wider |
| Convert.BytesToBitsAppend | src/convert.rs:42-55 | The bits of a concatenation are the concatenation of the bits |
| Head.FileBits | src/head.rs:8-12 | The name field is zero bits for the bytes the name leaves free of 32, then eight bits per character of its low byte |
| Head.GenHeadpage | src/head.rs:5-26 | Returns the header page, or the failure that stops it: the padding count underflows for a UTF-8 name over 32 bytes, or the 328-bit assertion fails |
| Head.HeadPageAscii | src/head.rs:5-26 | For an ASCII name, the header is built exactly when the name has at most 32 characters and the block size is below 256. A longer name fails with NameTooLong |
| Head.HeadPageLength | src/head.rs:8-23 | Every built header is 328 bits. Building succeeds exactly when the name is at most 32 UTF-8 bytes and the block-size numeral is as much wider than 8 as the name has bytes beyond characters |
| Head.WidePixelCompensated | src/head.rs:8-23 | The name "é" (2 bytes, 1 character) with block size 0x8000 (16 digits) passes the assertion. It reads back as the name "é\u0080" with block size 0 |
| Head.HeadLayout | src/head.rs:8-20 | A built header with block size below 256 has zero bits, then the name's bytes in bits 0..256, the block size in bits 256..264, the unused bytes in bits 264..296 and the frame count in bits 296..328 |
| Head.TakeBits | src/head.rs:48-67 | An `if let Some(b) = head_iter.next()` loop takes the next `count` bits, or as many as remain, and advances the cursor by the same amount |
| Head.ParseHeadpage | src/head.rs:28-73 | Fails with HeaderTooShort on fewer than 328 bits (the index at line 29). Otherwise returns the name decoded from bits 0..256 and the three numbers from their fixed fields |
| Head.HeadRoundTrip | src/head.rs:5-73 | For an ASCII name without NUL, of at most 32 characters, and a block size below 256, parse_headpage returns exactly what gen_headpage was given |
| Head.ParseHeadIgnoresTail | src/head.rs:29 | parse_headpage looks only at the first 328 bits; anything after them does not change the result |
| Head.Utf8LenAtLeast | src/head.rs:8 | `file.len()` counts at least one byte per character, and equals the character count exactly for ASCII names |
| Head.VisibleAscii | src/head.rs:40-46 | An ASCII name without NUL reads back from its low bytes unchanged |
| Session.VideoTypeNames | src/main.rs:298-305 | Each video type's name parses back to that type, a parsed name is that type's name, and any other string fails with UnknownVideoType |
| Session.Gcd | src/main.rs:275-282 | The result divides both inputs, and every common divisor is at most the result. gcd(a, 0) = a |
| Session.GcdIsLargest | src/main.rs:275-282 | Every common divisor of a and b is at most their gcd |
| Session.MaxPixelSize | src/main.rs:284-294 | The loop's result. It panics when w*h overflows u32 or when the count reaches a zero divisor. Otherwise it returns the size the search stops at, cast to u8 |
| Session.BlockSizeIsLargest | src/main.rs:284-294 | When w*h > req, the search stops at the largest size that divides both sides and leaves more than req blocks, and that size is at most gcd(w, h) |
| Session.NoBlockSize | src/main.rs:286-291 | The search finds no size only when w*h <= req |
| Session.EncodeHeaderBlockSize | src/encode.rs:42 | The header's 328 bits at 1280x720 give a block size of 40, the size the encoder paints the header with |
| Session.DecodeHeaderBlockSize | src/decode.rs:19 | HEAD_LENGHT = 844 at 1280x720 gives a block size of 20 |
| Session.GetBytesPerFrame | src/main.rs:259-273 | A successful result r satisfies r * den * s^2 == total_pixels * num, so both divisions were exact |
| Session.BytesPerFrameDivisions | src/main.rs:259-273 | Succeeds exactly when both divisions are exact. Otherwise it fails with Incompatible |
| Session.FramesCountIsCeiling | src/encode.rs:31 | With bytes on each frame, the frame count is the least count of frames holding the file. It is zero only for an empty file |
| Session.UnusedBytesArePadding | src/encode.rs:32 | The u32 unused-byte count exists exactly when bpf * frames fits u32. It is then the padding of the last frame, less than one frame. It always exists when the file and one more frame fit |
| Session.TotalPixels | src/main.rs:104-110 | Succeeds exactly when width and height are set and their product fits u32, and returns that product. An overflow panics |
| Session.BytesPerFrame | src/main.rs:112-120 | A successful result times the type's denominator times pixel_size^2 equals total pixels times the type's numerator |
| Session.CachedAccessorsAreStable | src/main.rs:136-212 | An accessor whose field is already set returns it and changes nothing |
| Session.AccessorsMemoise | src/main.rs:136-212 | After a successful checksum, filename or file_size, calling it again returns the same value and leaves the same state, whatever the outside world says now |
| Session.DerivedAccessorsMemoise | src/main.rs:181-201 | The same for total_frames and unused_bytes, including the fields they fill in on the way |
| Session.AccessorsKeepSettings | src/main.rs:136-212 | checksum, filename and file_size leave the video type, path, block size, fps and sides as they were |
| Session.DerivedAccessorsKeepSettings | src/main.rs:181-201 | total_frames and unused_bytes leave them as they were too |
| Session.FreshInfoPadding | src/main.rs:181-212 | On a fresh session whose file and one more frame fit u32, total_frames is the least number of frames holding the file, and unused_bytes is the padding on its last frame |
| Session.VideoInfo.New | src/main.rs:72-86 | The new session holds the given settings, and all its cached values are unset |
| Session.VideoInfo.FromParse | src/main.rs:88-102 | The session holds the header's values, and no path, file size, fps or sides |
| Session.VideoInfo.Checksum | src/main.rs:136-155 | Returns the cached checksum if there is one. Otherwise it needs a path and a digest, and caches the digest |
| Session.VideoInfo.Filename | src/main.rs:157-179 | Returns the cached name if there is one. Otherwise it needs a path and a base name, and caches the name |
| Session.VideoInfo.FileSize | src/main.rs:203-212 | Returns the cached size if there is one. Otherwise it loads it from the path and caches it |
| Session.VideoInfo.TotalFrames | src/main.rs:192-201 | The cached count, or ceil(file_size / bytes_per_frame) (usize::MAX when bytes_per_frame is 0), which it caches |
| Session.VideoInfo.UnusedBytes | src/main.rs:181-190 | The cached count, or bytes_per_frame * total_frames - file_size as u32, where an overflow or underflow panics. It caches the result |
| Raster.BgrOf | src/frame.rs:55-57 | A pixel is stored as blue, green, red in channels 0, 1, 2 |
| Raster.Frame.constructor | src/frame.rs:19-30 | The frame holds the given data, block size and sides, and an image of height x width in the fill colour |
| Raster.NewFrame | src/frame.rs:19-30 | Fails exactly when Frame::new stops, with the same failure. That is a zero block size, a block count beyond u32, more bits than blocks (the assertion), or sides beyond i32 for the Mat. Otherwise it returns a fresh frame holding the data |
| Raster.FrameCheckAccepts | src/frame.rs:20 | For sides that fit i32, a frame is accepted exactly when the block size is positive and the data has no more bits than the frame has blocks |
| Raster.BlockCoords | src/frame.rs:35-40 | The coordinate list has width/s * height/s entries, and entry k is (k % cols, k / cols), listed row by row |
| Raster.Frame.PaintBlock | src/frame.rs:52-58 | Colours exactly the pixels of block (i, j) and leaves the rest of the image unchanged |
| Raster.Frame.ComputeColors | src/frame.rs:32-61 | Fails with TooManyBits, leaving the image unchanged, on more data bits than bits_per_page. Otherwise it paints block k in pixels[k] for each block the frame has, and fails with BlockIndex after those when pixels remain |
| Raster.CentreShowsBlock | src/frame.rs:49-59 | After painting, the centre pixel of block k shows pixels[k] |
| Raster.OwnerIsBlock | src/frame.rs:49-59 | A pixel lies in block k exactly when k is among the painted blocks and the pixel's row and column divided by s name block k |
| Encode.Bpf | src/encode.rs:28 | bytes_per_frame is the number of whole bytes the blocks of a frame hold: 8*bpf <= blocks < 8*bpf + 8 |
| Encode.CreateVideo | src/encode.rs:17-73 | Returns the frames create_video paints, or the check that stops it |
| Encode.WriteFrames | src/encode.rs:40-72 | The header page at block size 40 on 1280x720, then one page per frame, each made of the next bytes_per_frame bytes of the file, zero-padded |
| Encode.ReadFrame | src/encode.rs:58-63 | A frame's data is the bits of the next bytes_per_frame bytes, with a zero byte wherever the file has ended. The read position advances past them |
| Encode.PagesFitFrames | src/encode.rs:18-32 | A successful create_video passed both checks, its pages fit their frames' blocks, and it used bytes_per_frame |
| Encode.EncodedLayout | src/encode.rs:40-72 | There are 1 + frames_count pages. Page 0 is the header of the name, block size, unused bytes and frame count. Page k is the bits of the file's k-1-th slice |
| Encode.PayloadIsFile | src/encode.rs:55-72 | The payload pages laid end to end are the file's bits followed by 8 zero bits per unused byte, with fewer unused bytes than a frame holds |
| Encode.HeaderReadsBack | src/encode.rs:40 | The header page of a successful encoding parses back to the name, block size, unused bytes and frame count (taken mod 2^32) |
| Encode.CreateVideoSucceeds | src/encode.rs:17-32 | Encoding succeeds whenever: the checks pass; a frame holds a byte; the file plus one frame fits u32; the name is ASCII of at most 32 characters; and the block size and sides fit their types |
| Encode.HeaderFrameAccepted | src/encode.rs:42 | The header frame of 1280x720 at block size 40 accepts any built header |
| Encode.PayloadFrameAccepted | src/encode.rs:66 | A payload frame accepts 8 * bytes_per_frame bits, failing only for sides that do not fit i32 |
| Encode.PayloadBits | src/encode.rs:55-63 | The first n payload pages laid end to end are the bits of the file's first n * bytes_per_frame bytes, zero-padded |
| Decode.DecodeBlackAndWhite | src/decode.rs:77-96 | Reads one bit per block row by row, from the block's centre pixel: light when the channels' mean (rounded down) is at least 128. It fails when a centre lies outside the captured image and panics on block size 0 |
| Decode.SamplesLength | src/decode.rs:77-96 | A successful read has (w/s)*(h/s) bits |
| Decode.EmptyFrameSamples | src/decode.rs:83 | Reading a frame past the end of the video yields an empty image, on which at_2d fails unless the grid is empty |
| Decode.PaintedFrameReadsBack | src/decode.rs:77-96 | A frame painted at block size s, read at the same size and sides, gives for each painted block k the lightness of pixels[k] |
| Decode.HeaderMisread | src/decode.rs:19 | The decoder reads the header at block size 20. On a header painted at 40, the second bit it reads is the first header bit and not the second |
| Decode.HeaderReadCorrected | src/decode.rs:19 | At the block size for 328 bits (40), the header frame reads back bit for bit |
| Decode.OverwriteProps | src/decode.rs:57 | After write_all_at, the buffer sits at the offset, every other byte is the old one, and a gap past the old end reads as zero |
| Decode.OverwriteConcat | src/decode.rs:57-58 | Writing a and then b right after it is writing a + b |
| Decode.OverwriteAll | src/decode.rs:28-31 | A file opened without truncation holds exactly what is written from offset 0 when that is at least as long as the old contents |
| Decode.OutputFile.constructor | src/decode.rs:28-31 | The output file starts with what the path held: empty when created, the old bytes otherwise |
| Decode.OutputFile.WriteAllAt | src/decode.rs:57 | The new contents are the old ones overwritten at the offset |
| Decode.LastCut | src/decode.rs:53-55 | The truncation succeeds exactly when unused*8 fits u32 and does not exceed the bits read. It then removes exactly unused*8 bits from the end and keeps the rest |
| Decode.BitsPerPage | src/decode.rs:34 | bits_per_page is (w/s)*(h/s). It panics when s is 0 or the product overflows u32 |
| Decode.DecodeVideo | src/decode.rs:12-75 | The verdict and the file written are as specified: header at the HEAD_LENGHT block size, open, the frame loop, then the checksum comparison, with each failure where the source stops |
| Decode.ReadHeader | src/decode.rs:19-24 | The header fields read from the first frame at the block size max_pixel_size gives for HEAD_LENGHT bits |
| Decode.ExtractAndCheck | src/decode.rs:33-72 | From the open file on: the loop's result and the file's contents, then Intact or Corrupted by the digest, or the failure that stops the run |
| Decode.ExtractFrames | src/decode.rs:43-59 | The loop over total_frames frames: the file's contents and result as the frame-by-frame specification gives them, with the session unchanged |
| Decode.ExtractFromStep | src/decode.rs:43-59 | One turn of the loop: the frame's write, then the rest of the loop from the next frame and offset |
| Decode.LastFrame | src/decode.rs:53-54 | Tells whether frame i is the last, and on the last frame gives the cached unused-byte count |
| Decode.ExtractFrame | src/decode.rs:44-58 | One frame, in order: fails on a type other than black and white, on a read failure, on the length assertion, or on truncating the last frame. Otherwise it writes the frame's bytes at the offset |
| RoundTrip.FrameWritesSlice | src/decode.rs:53-58 | The decoder writes payload frame i as the file's slice from i*bpf to the next frame, or to the end of the file for the last frame once the unused bytes are cut |
| RoundTrip.ExtractPayload | src/decode.rs:43-59 | From frame i on, the loop over the encoder's payload pages finishes writing the file over whatever the output held |
| RoundTrip.PayloadRoundTrip | src/decode.rs:43-59 | The decoder's loop over the encoder's payload pages, with the encoder's unused-byte count and 8*bytes_per_frame bits per frame, writes the whole file from byte 0 |
| RoundTrip.FixedRoundTrip | src/encode.rs:23-28 | With the corrected check, frames read back at all their blocks rebuild the file. A fresh output file then holds exactly the file |
| RoundTrip.WholeBytesOfBlocks | src/encode.rs:28 | When the blocks come in whole bytes, 8 * bytes_per_frame is the number of blocks |
| RoundTrip.TrailingByte | src/encode.rs:23-28 | As written, 24x24 frames with block size 8 pass the check but hold 9 blocks. A 1-byte file read back at all 9 blocks gives 2 bytes |
| RoundTrip.SpareBitByte | src/decode.rs:53-58 | A frame of one byte's bits plus one spare bit, as the last frame with no unused bytes, writes that byte and then a byte made of the spare bit |
| RoundTrip.HdBlocksAreBytes | src/encode.rs:23 | At 1280x720, every block size that divides both sides leaves a whole number of bytes of blocks |
| RoundTrip.HeaderRoundTripCorrected | src/decode.rs:19-24 | Read at the block size for 328 bits, a first frame whose blocks begin with the encoder's header page gives back the name, block size, unused bytes and frame count |

## Left out

- f64 rounding: `frames_count` and `total_frames` go through `f64` division and `ceil`. The model uses exact ceiling division (`Session.FramesCount`), which differs only for files above 2^53 bytes.
- The `fps`, `width`, `height` and `load_file` accessors of `VideoInfo`: they only read a field or open a file. `file_size` takes the size on disk as a parameter instead of calling `load_file`.
- Outside the model: argument parsing with clap, `main`'s dispatch, the progress bars, `println!`/`eprintln!` output, and the crossbeam thread that paints each frame. The thread is joined before the next frame, so frames stay in order.
- OpenCV:
  - `VideoWriter` and `VideoCapture` are modelled as copying value images;
  - the codec's lossy compression is not modelled; frames read back as painted;
  - `at_2d`'s first argument is the row, as in OpenCV, even though the source names it `x`;
  - the i32 casts of coordinates are not modelled.
- The VideoWriter's fixed 1280x720 frame size: the model assumes payload frames are captured at the sides they were painted with.
- sha256: `try_digest` is the `digest` parameter, so the hash itself is not modelled. The model does not check that the parameter is a hash of the extracted contents.
- The file system: `OpenOptions::open` is the `files` parameter. Read errors from `b.unwrap()` on the input file, and `write_all_at` failures, are not modelled.
- `black_and_white` and the grayscale/colour schemes are `todo!()` in the source. The colours painted are a parameter (`pixels`) of `Raster.Frame.ComputeColors`, and the decoder reads black and white only, like the source.
- `compute_colors`'s dispatch on `video_type`: only the black-and-white branch exists, and it is the `pixels` parameter.
- Encode.CreateVideo and Encode.EncodeFrames: at `src/encode.rs:43` and `:67` the source calls `compute_colors()` without its arguments, and at `src/encode.rs:66` it passes the `u32` block size to `Frame::new`, which takes a `u8`. These lines do not compile as written. The model's encoder hands each frame on as an `Encode.Page`: its bits, with the block size kept as a number rather than cast to `u8`. Painting is `Raster.Frame.ComputeColors`, whose colours are its `pixels` parameter.
- Head.ParseHeadpage: `bin_to_dec` returns a plain number, not a `Result` (`src/convert.rs:24-40`), yet `src/head.rs:69-71` calls `.expect(...)` on it, which does not compile. The model keeps `bin_to_dec`'s own `error(...)` exit and returns it as `Err(BinToDecFailed)`.
- Raster.Frame.ComputeColors: the `match video_type` at `src/frame.rs:42-47` has no arm for `VideoType::Color` (`src/main.rs:240`), so it does not compile. The model takes the colours as its `pixels` parameter instead of matching on the video type.
- Decode.DecodeVideo's session values: the source uses the tuple of `parse_headpage` as a `VideoInfo`. The model builds the session with `VideoInfo::from_parse`, taking the video type and checksum (which the header does not carry) as parameters.
- Release builds: the model follows overflow-checked (debug) arithmetic, where each overflow panics. In a release build these operations wrap and the program keeps going:
  - `width * height` at `src/encode.rs:23`;
  - `bytes_per_frame * frames_count as u32 - file_size as u32` at `src/encode.rs:32` and `src/main.rs:185`;
  - `unused_bytes() * 8` and `buffer.len() - …` at `src/decode.rs:54`.

  For example, a non-empty file with bytes_per_frame = 0 is `Err(Panic)` in the model. A release build instead gets frames_count = usize::MAX, writes the header, and loops practically forever.
- The header frame already written when encoding fails: a payload `Frame::new` can fail at `src/encode.rs:66` after the header frame is written at `src/encode.rs:45`. For example, with h = 1, p = 1 and w = 2^31, the i32 cast makes `Mat::new_rows_cols` fail. `Encode.EncodeFrames` then returns only the `Err`, not the one frame already in the output video.
- `offset += bits_per_page / 8` is a `u64` sum. The model uses an unbounded offset, because u64 overflow needs more than 2^64 bytes.
- Files of 4 GiB or more: the model does follow `file_size as u32` and the u32 truncation of the frame count. The lemmas relating encoding to decoding cover only files below 4 GiB.

## Findings

| source | as written | input that shows it | evidently intended | confidence | as-written member | corrected member |
|---|---|---|---|---|---|---|
| src/encode.rs:23 | The check is `(width * height) % 8 != 0`, on pixels. The decoder reads all `(width/pixel)*(height/pixel)` blocks and writes every 8 of them as a byte, with no cut for spare blocks | width = height = 24, pixel = 8, a 1-byte file: 576 pixels pass the check, but the 9 blocks hold one byte and one spare block, so the file comes back 2 bytes long | Check that the blocks of a frame come in whole bytes: `((width/pixel)*(height/pixel)) % 8 != 0` | low, not executed: the writer's frames are 1280x720, where `RoundTrip.HdBlocksAreBytes` shows the check as written suffices | RoundTrip.TrailingByte | RoundTrip.FixedRoundTrip |
| src/decode.rs:19 | The header block size is computed from `HEAD_LENGHT` = 844 (src/main.rs:18). At 1280x720 that gives 20, but the encoder paints the header at 40 | Any header at 1280x720 whose first two bits differ: at size 20 the second bit read is the first header bit again | Compute the size from the header's 328 bits, which gives 40 | high, not executed | Decode.HeaderMisread | RoundTrip.HeaderRoundTripCorrected |
