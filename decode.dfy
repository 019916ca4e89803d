/** The decoder of src/decode.rs: reads the header frame at the block size max_pixel_size gives,
    then samples the centre of every block of every payload frame and writes the bytes at their
    offsets in the output file. */
module Decode {
  import opened Types
  import opened Arith
  import opened Convert
  import opened Head
  import opened Session
  import opened Raster

  /* ---------------------------------------------------------------------------------------- */
  /* decode_black_and_white                                                                   */

  /** A frame as read from a video: rows of pixels. `Mat::at_2d(y, x)` succeeds when row y
      exists and has a pixel x. */
  type Image = seq<seq<Bgr>>

  predicate InImage(img: Image, y: nat, x: nat)
  {
    y < |img| && x < |img[y]|
  }

  /** What `VideoWriter::write` stores for a frame: a copy of its pixels. */
  function Snapshot(a: array2<Bgr>): (img: Image)
    reads a
    ensures |img| == a.Length0
    ensures forall y | 0 <= y < a.Length0 :: |img[y]| == a.Length1
    ensures forall y, x | 0 <= y < a.Length0 && 0 <= x < a.Length1 :: img[y][x] == a[y, x]
  {
    seq(a.Length0, y requires 0 <= y < a.Length0 reads a =>
      seq(a.Length1, x requires 0 <= x < a.Length1 reads a => a[y, x]))
  }

  /** A pixel reads as a one when the integer mean of its three channels is at least 128. */
  predicate IsLight(c: Bgr)
  {
    (c.c0 + c.c1 + c.c2) / 3 >= 128
  }

  /** The row and the column of the point sampled for block k: the block's centre. */
  function SampleRow(k: nat, s: nat, cols: nat): nat
    requires cols > 0
  {
    (k / cols) * s + s / 2
  }

  function SampleCol(k: nat, s: nat, cols: nat): nat
    requires cols > 0
  {
    (k % cols) * s + s / 2
  }

  /** Block k's centre is a pixel of the frame. */
  predicate SampleInFrame(img: Image, k: nat, s: nat, cols: nat)
  {
    cols > 0 && InImage(img, SampleRow(k, s, cols), SampleCol(k, s, cols))
  }

  /** Every block centre of a grid of rows x cols blocks is a pixel of the frame. */
  predicate SamplesFit(img: Image, rows: nat, cols: nat, s: nat)
  {
    forall k | 0 <= k < rows * cols :: SampleInFrame(img, k, s, cols)
  }

  /** The bit read from block k. */
  function SampleBit(img: Image, k: nat, s: nat, cols: nat): bool
    requires SampleInFrame(img, k, s, cols)
  {
    IsLight(img[SampleRow(k, s, cols)][SampleCol(k, s, cols)])
  }

  /** The bits of a rows x cols grid of blocks, row by row, or a failed pixel access. */
  function SampleGrid(img: Image, rows: nat, cols: nat, s: nat): (r: Result<seq<bool>>)
    ensures r.Ok? ==> |r.value| == rows * cols
  {
    if !SamplesFit(img, rows, cols, s) then Err(FrameRead)
    else Ok(seq(rows * cols, k requires 0 <= k < rows * cols && SamplesFit(img, rows, cols, s) =>
      SampleBit(img, k, s, cols)))
  }

  /** What decode_black_and_white yields for a w x h frame in blocks of s. */
  function Samples(img: Image, w: nat, h: nat, s: nat): Result<seq<bool>>
  {
    if s == 0 then Err(Panic) else SampleGrid(img, h / s, w / s, s)
  }

  /** `bits` holds the bits of the first |bits| blocks. */
  ghost predicate Sampled(img: Image, bits: seq<bool>, s: nat, cols: nat)
  {
    forall k | 0 <= k < |bits| :: SampleInFrame(img, k, s, cols) && bits[k] == SampleBit(img, k, s, cols)
  }

  /** decode_black_and_white: block rows outer, block columns inner, one bit per block. */
  method DecodeBlackAndWhite(img: Image, w: u32, h: u32, s: u32) returns (r: Result<seq<bool>>)
    ensures r == Samples(img, w, h, s)
  {
    if s == 0 {
      return Err(Panic);
    }
    var rows := h / s;
    var cols := w / s;
    var bits := [];
    var i := 0;
    while i < rows
      invariant i <= rows && |bits| == i * cols
      invariant Sampled(img, bits, s, cols)
    {
      var next := DecodeBlockRow(img, i, s, cols, rows, bits);
      if next.Err? {
        return next;
      }
      bits := next.value;
      i := i + 1;
    }
    SampledIsGrid(img, bits, rows, cols, s);
    r := Ok(bits);
  }

  /** One row of blocks of decode_black_and_white, appended to the bits of the rows above. */
  method DecodeBlockRow(img: Image, i: nat, s: nat, cols: nat, rows: nat, bits: seq<bool>)
    returns (r: Result<seq<bool>>)
    requires i < rows && |bits| == i * cols && Sampled(img, bits, s, cols)
    ensures r.Err? ==> r == Err(FrameRead) && !SamplesFit(img, rows, cols, s)
    ensures r.Ok? ==> |r.value| == (i + 1) * cols && Sampled(img, r.value, s, cols)
  {
    var out := bits;
    var j := 0;
    while j < cols
      invariant j <= cols && |out| == i * cols + j
      invariant Sampled(img, out, s, cols)
    {
      var x := i * s + s / 2;
      var y := j * s + s / 2;
      BlockCentre(i, j, s, cols);
      if !(x < |img| && y < |img[x]|) {
        MulMono(i + 1, rows, cols);
        assert !SampleInFrame(img, i * cols + j, s, cols);
        return Err(FrameRead);
      }
      SampledPush(img, out, i, j, s, cols);
      out := out + [IsLight(img[x][y])];
      j := j + 1;
    }
    assert i * cols + cols == (i + 1) * cols;
    r := Ok(out);
  }

  /** Block (i, j) is block i * cols + j, whose centre is at row i * s + s / 2, column j * s + s / 2. */
  lemma BlockCentre(i: nat, j: nat, s: nat, cols: nat)
    requires j < cols
    ensures SampleRow(i * cols + j, s, cols) == i * s + s / 2
    ensures SampleCol(i * cols + j, s, cols) == j * s + s / 2
  {
    DivUnique(i * cols + j, cols, i, j);
  }

  lemma SampledPush(img: Image, bits: seq<bool>, i: nat, j: nat, s: nat, cols: nat)
    requires j < cols && |bits| == i * cols + j && Sampled(img, bits, s, cols)
    requires InImage(img, i * s + s / 2, j * s + s / 2)
    ensures Sampled(img, bits + [IsLight(img[i * s + s / 2][j * s + s / 2])], s, cols)
  {
    BlockCentre(i, j, s, cols);
    var b := IsLight(img[i * s + s / 2][j * s + s / 2]);
    forall k | 0 <= k < |bits| + 1
      ensures SampleInFrame(img, k, s, cols) && (bits + [b])[k] == SampleBit(img, k, s, cols)
    {
      if k < |bits| {
        assert (bits + [b])[k] == bits[k];
      }
    }
  }

  /** The bits of all rows x cols blocks, each inside the frame, are the grid's bits. */
  lemma SampledIsGrid(img: Image, bits: seq<bool>, rows: nat, cols: nat, s: nat)
    requires |bits| == rows * cols && Sampled(img, bits, s, cols)
    ensures SampleGrid(img, rows, cols, s) == Ok(bits)
  {
    assert SamplesFit(img, rows, cols, s);
    assert SampleGrid(img, rows, cols, s).value == bits;
  }

  /** decode_black_and_white yields one bit per block, (w / s) * (h / s) in all: decode_video's
      length assertion, made against that product, always holds. */
  lemma SamplesLength(img: Image, w: nat, h: nat, s: nat)
    requires Samples(img, w, h, s).Ok?
    ensures s > 0 && |Samples(img, w, h, s).value| == (w / s) * (h / s)
  {
  }

  /** The frame `VideoCapture::read` leaves for frame i: the captured one, or the empty Mat once
      the video has no frame left. */
  function Captured(video: seq<Image>, i: nat): Image
  {
    if i < |video| then video[i] else []
  }

  /** The empty frame gives no bits when the grid has no blocks, and a failed access otherwise. */
  lemma EmptyFrameSamples(w: nat, h: nat, s: nat)
    requires s > 0
    ensures Samples([], w, h, s) == if (h / s) * (w / s) == 0 then Ok([]) else Err(FrameRead)
  {
    if (h / s) * (w / s) != 0 {
      assert !SampleInFrame([], 0, s, w / s);
    }
  }

  /* ---------------------------------------------------------------------------------------- */
  /* Raster round trip                                                                        */

  /** Block k of a grid of rows x cols blocks of s has its centre inside the rows * s by
      cols * s pixels the grid covers. */
  lemma SampleInside(k: nat, s: nat, cols: nat, rows: nat)
    requires s > 0 && k < rows * cols
    ensures cols > 0 && SampleRow(k, s, cols) < rows * s && SampleCol(k, s, cols) < cols * s
  {
    BlockPosition(k, cols, rows);
    MulMono(k / cols, rows - 1, s);
    MulMono(k % cols, cols - 1, s);
  }

  /** A w x h frame whose first |pixels| blocks of s were painted over `fill`, as Frame::new and
      compute_colors leave it, reads back, once written to the video, block by block the
      lightness of each painted colour. With a colour scheme that paints a one light and a zero
      dark, the bits come back. */
  lemma PaintedFrameReadsBack(a: array2<Bgr>, fill: Bgr, pixels: seq<Pixel>, w: nat, h: nat, s: nat)
    requires s > 0 && a.Length0 == h && a.Length1 == w
    requires |pixels| <= (h / s) * (w / s)
    requires forall y, x | 0 <= y < h && 0 <= x < w :: a[y, x] == Painted(fill, y, x, pixels, s, w / s, h / s)
    ensures Samples(Snapshot(a), w, h, s).Ok?
    ensures forall k | 0 <= k < |pixels| :: Samples(Snapshot(a), w, h, s).value[k] == IsLight(BgrOf(pixels[k]))
  {
    var img := Snapshot(a);
    GridFits(img, w, h, s);
    var bits := Samples(img, w, h, s).value;
    forall k | 0 <= k < |pixels|
      ensures bits[k] == IsLight(BgrOf(pixels[k]))
    {
      SampleInside(k, s, w / s, h / s);
      var y := SampleRow(k, s, w / s);
      var x := SampleCol(k, s, w / s);
      assert bits[k] == IsLight(a[y, x]);
      CentreShowsBlock(fill, k, pixels, s, w / s, h / s);
    }
  }

  /** Every block centre of the grid of (w / s) x (h / s) blocks is a pixel of an h x w frame. */
  lemma GridFits(img: Image, w: nat, h: nat, s: nat)
    requires s > 0 && |img| == h && forall y | 0 <= y < h :: |img[y]| == w
    ensures SamplesFit(img, h / s, w / s, s)
  {
    var rows := h / s;
    var cols := w / s;
    assert rows * s <= h && cols * s <= w;
    forall k | 0 <= k < rows * cols
      ensures SampleInFrame(img, k, s, cols)
    {
      SampleInside(k, s, cols, rows);
    }
  }

  /** The header block size of decode_video, as written, misreads encode's header frame: at
      1280x720 it samples blocks of 20 on a frame painted in blocks of 40, so its second sample
      falls in the first painted block, and a header whose first two bits differ (a 32-byte name
      whose first byte is 0x41) is not read back. */
  lemma HeaderMisread(a: array2<Bgr>, fill: Bgr, pixels: seq<Pixel>, bits: seq<bool>)
    requires a.Length0 == 720 && a.Length1 == 1280 && 2 <= |pixels| <= 576
    requires |bits| == |pixels| && bits[0] != bits[1]
    requires forall k | 0 <= k < |pixels| :: IsLight(BgrOf(pixels[k])) == bits[k]
    requires forall y, x | 0 <= y < 720 && 0 <= x < 1280 :: a[y, x] == Painted(fill, y, x, pixels, 40, 32, 18)
    ensures MaxPixel(HEAD_LENGHT, 1280, 720) == Ok(20)
    ensures Samples(Snapshot(a), 1280, 720, 20).Ok?
    ensures Samples(Snapshot(a), 1280, 720, 20).value[1] == IsLight(BgrOf(pixels[0])) != bits[1]
  {
    var img := Snapshot(a);
    DecodeHeaderBlockSize();
    GridFits(img, 1280, 720, 20);
    assert SampleRow(1, 20, 64) == 10 && SampleCol(1, 20, 64) == 30;
    assert Owner(10, 30, 40, 32) == 0;
  }

  /** A header block size computed for the 328 bits the header really has matches the encoder's
      blocks of 40 at 1280x720, and the header frame then reads back bit for bit. */
  lemma HeaderReadCorrected(a: array2<Bgr>, fill: Bgr, pixels: seq<Pixel>)
    requires a.Length0 == 720 && a.Length1 == 1280 && |pixels| <= 576
    requires forall y, x | 0 <= y < 720 && 0 <= x < 1280 :: a[y, x] == Painted(fill, y, x, pixels, 40, 32, 18)
    ensures MaxPixel(HEAD_BITS, 1280, 720) == Ok(40)
    ensures Samples(Snapshot(a), 1280, 720, 40).Ok?
    ensures forall k | 0 <= k < |pixels| :: Samples(Snapshot(a), 1280, 720, 40).value[k] == IsLight(BgrOf(pixels[k]))
  {
    EncodeHeaderBlockSize();
    PaintedFrameReadsBack(a, fill, pixels, 1280, 720, 40);
  }

  /* ---------------------------------------------------------------------------------------- */
  /* The output file                                                                          */

  function Max(a: nat, b: nat): nat { if a < b then b else a }

  /** The file's contents after `write_all_at(buf, off)`: buf replaces the bytes from off on, a
      gap past the old end reads as zero bytes, and an empty buffer writes nothing. */
  function Overwrite(c: seq<u8>, buf: seq<u8>, off: nat): (r: seq<u8>)
    ensures buf == [] ==> r == c
    ensures buf != [] ==> |r| == Max(|c|, off + |buf|)
  {
    if buf == [] then c
    else
      var n := Max(|c|, off + |buf|);
      seq(n, i requires 0 <= i < n => if off <= i < off + |buf| then buf[i - off] else if i < |c| then c[i] else 0)
  }

  /** After the write, buf sits at off and every other byte is the old one, or zero in a gap. */
  lemma OverwriteProps(c: seq<u8>, buf: seq<u8>, off: nat)
    ensures var r := Overwrite(c, buf, off);
      (forall i | 0 <= i < |buf| :: r[off + i] == buf[i])
      && (forall i | 0 <= i < |r| && !(off <= i < off + |buf|) :: r[i] == if i < |c| then c[i] else 0)
  {
    var r := Overwrite(c, buf, off);
    if buf != [] {
      forall i | 0 <= i < |buf|
        ensures r[off + i] == buf[i]
      {
        assert off <= off + i < off + |buf|;
      }
    }
  }

  /** Writing a then b right behind it is writing a + b. */
  lemma OverwriteConcat(c: seq<u8>, a: seq<u8>, b: seq<u8>)
    ensures Overwrite(Overwrite(c, a, 0), b, |a|) == Overwrite(c, a + b, 0)
  {
    var x := Overwrite(Overwrite(c, a, 0), b, |a|);
    var y := Overwrite(c, a + b, 0);
    OverwriteProps(c, a, 0);
    OverwriteProps(Overwrite(c, a, 0), b, |a|);
    OverwriteProps(c, a + b, 0);
    if b != [] && a != [] {
      assert |x| == |y|;
      forall i | 0 <= i < |x|
        ensures x[i] == y[i]
      {
        if i < |a| {
          assert x[i] == Overwrite(c, a, 0)[i];
          assert (a + b)[i] == a[i];
        } else if i < |a| + |b| {
          assert x[|a| + (i - |a|)] == b[i - |a|];
          assert (a + b)[i] == b[i - |a|];
        }
      }
    } else if a == [] {
      assert a + b == b;
    } else {
      assert a + b == a;
    }
  }

  /** A file written from offset 0 with at least its own length holds exactly what was written. */
  lemma OverwriteAll(c: seq<u8>, buf: seq<u8>)
    requires |c| <= |buf|
    ensures Overwrite(c, buf, 0) == buf
  {
    if buf != [] {
      var r := Overwrite(c, buf, 0);
      OverwriteProps(c, buf, 0);
      forall i | 0 <= i < |buf|
        ensures r[i] == buf[i]
      {
        assert r[0 + i] == buf[i];
      }
    }
  }

  /** The file decode_video opens with create and write but without truncate: its old bytes stay
      until they are overwritten. */
  class OutputFile {
    var contents: seq<u8>

    constructor (existing: seq<u8>)
      ensures contents == existing
    {
      contents := existing;
    }

    method WriteAllAt(buf: seq<u8>, off: nat)
      modifies this
      ensures contents == Overwrite(old(contents), buf, off)
    {
      contents := Overwrite(contents, buf, off);
    }
  }

  /* ---------------------------------------------------------------------------------------- */
  /* decode_video                                                                             */

  datatype Verdict = Intact | Corrupted

  /** The bits the last frame keeps: all but 8 bits per unused byte, where the u32 product and
      the usize difference may overflow. */
  function LastCut(buffer: seq<bool>, unused: u32): (r: Result<seq<bool>>)
    ensures r.Ok? <==> 8 * unused < U32_LIMIT && 8 * unused <= |buffer|
    ensures r.Ok? ==> (|r.value| <= |buffer| && r.value + buffer[|r.value|..] == buffer
                       && |buffer| - |r.value| == 8 * unused)
  {
    if unused * 8 >= U32_LIMIT || unused * 8 > |buffer| then Err(Panic)
    else Ok(buffer[..|buffer| - unused * 8])
  }

  /** One pass of decode_video's loop on a decoded frame: the contents of the file after frame
      i is written at off, or why the run stops. Only the last frame loses the unused bytes. */
  function FrameStep(buffer: Result<seq<bool>>, vt: VideoType, bpp: nat, unused: u32, last: bool,
                     off: nat, c: seq<u8>): Result<seq<u8>>
  {
    if vt != BlackNWhite then Err(NotImplemented)
    else if buffer.Err? then Err(buffer.error)
    else if |buffer.value| != bpp then Err(FrameLength)
    else
      var kept := if last then LastCut(buffer.value, unused) else Ok(buffer.value);
      if kept.Err? then Err(kept.error)
      else Ok(Overwrite(c, Pack(kept.value), off))
  }

  /** The loop of decode_video from frame i on, over the decoded frames `buffers`, with the file
      holding c; frame i is written at offset i * (bpp / 8). */
  function ExtractFrom(buffers: seq<Result<seq<bool>>>, vt: VideoType, bpp: nat, unused: u32, i: nat, c: seq<u8>)
    : (Result<()>, seq<u8>)
    decreases |buffers| - i
  {
    if i >= |buffers| then (Ok(()), c)
    else
      var step := FrameStep(buffers[i], vt, bpp, unused, i == |buffers| - 1, i * (bpp / 8), c);
      if step.Err? then (Err(step.error), c)
      else ExtractFrom(buffers, vt, bpp, unused, i + 1, step.value)
  }

  /** The bits decode_black_and_white reads from each of the `total` payload frames. */
  function Decoded(video: seq<Image>, w: nat, h: nat, s: nat, total: nat): (r: seq<Result<seq<bool>>>)
    ensures |r| == total
  {
    seq(total, i requires 0 <= i < total => Samples(Captured(video, i + 1), w, h, s))
  }

  /** The end of a decoding run: its verdict or failure, and the extracted file's name and final
      contents once it was opened. */
  datatype Outcome = Outcome(verdict: Result<Verdict>, written: Option<(string, seq<u8>)>)

  /** The header's fields as read from the first frame at the block size max_pixel_size gives
      for req header bits. */
  function HeaderAt(video: seq<Image>, w: u32, h: u32, req: nat): Result<(string, u32, u32, u32)>
  {
    var hp := MaxPixel(req, w, h);
    if hp.Err? then Err(hp.error)
    else
      var head := Samples(Captured(video, 0), w, h, hp.value);
      if head.Err? then Err(head.error) else ParseHead(head.value)
  }

  /** What decode_video reads from the first frame: it asks for HEAD_LENGHT header bits. */
  function HeaderSpec(video: seq<Image>, w: u32, h: u32): Result<(string, u32, u32, u32)>
  {
    HeaderAt(video, w, h, HEAD_LENGHT)
  }

  /** What decode_video does with a captured video of frames w x h. The header does not carry
      the video type and the checksum, so they are given as vt and sum. files(name) is the file
      at that path as opening it for writing finds it (empty when created), or None when it
      cannot be opened; digest is sha256::try_digest on the extracted contents. */
  function DecodeSpec(video: seq<Image>, w: u32, h: u32, vt: VideoType, sum: string,
                      files: string -> Option<seq<u8>>, digest: seq<u8> -> Option<string>): Outcome
  {
    var fields := HeaderSpec(video, w, h);
    if fields.Err? then Outcome(Err(fields.error), None)
    else
      var (name, pixel, remain, pages) := fields.value;
      var existing := files(name);
      if existing.None? then Outcome(Err(FileAccess), None)
      else ExtractRun(video, w, h, vt, sum, name, pixel % U8_LIMIT, remain, pages, existing.value, digest)
  }

  /** The part of decode_video after the output file is open: the header's block size s,
      unused bytes and frame count drive the loop; then the extracted file's digest is compared
      with sum. */
  function ExtractRun(video: seq<Image>, w: u32, h: u32, vt: VideoType, sum: string, name: string,
                      s: u8, remain: u32, pages: u32, existing: seq<u8>, digest: seq<u8> -> Option<string>): Outcome
  {
    var bpp := BitsPerPage(w, h, s);
    if bpp.Err? then Outcome(Err(bpp.error), Some((name, existing)))
    else
      var (res, c) := ExtractFrom(Decoded(video, w, h, s, pages), vt, bpp.value, remain, 0, existing);
      if res.Err? then Outcome(Err(res.error), Some((name, c)))
      else
        var d := digest(c);
        if d.None? then Outcome(Err(ChecksumFailed), Some((name, c)))
        else Outcome(Ok(if d.value == sum then Intact else Corrupted), Some((name, c)))
  }

  /** bits_per_page: the blocks of a frame, as a u32 product. */
  function BitsPerPage(w: u32, h: u32, s: u8): (r: Result<u32>)
    ensures r.Ok? ==> s > 0 && r.value == (w / s) * (h / s)
    ensures r.Err? ==> r.error == Panic && (s == 0 || (w / s) * (h / s) >= U32_LIMIT)
  {
    if s == 0 then Err(Panic)
    else
      var cols := w / s;
      var rows := h / s;
      if cols * rows >= U32_LIMIT then Err(Panic) else Ok(cols * rows)
  }

  /** decode_video. */
  method DecodeVideo(video: seq<Image>, w: u32, h: u32, vt: VideoType, sum: string,
                     files: string -> Option<seq<u8>>, digest: seq<u8> -> Option<string>)
    returns (r: Result<Verdict>, written: Option<(string, seq<u8>)>)
    ensures Outcome(r, written) == DecodeSpec(video, w, h, vt, sum, files, digest)
  {
    var fields := ReadHeader(video, w, h);
    if fields.Err? {
      return Err(fields.error), None;
    }
    var (name, pixel, remain, pages) := fields.value;
    var info := new VideoInfo.FromParse(vt, sum, name, pixel % U8_LIMIT, remain, pages);
    var fname := info.Filename(None);
    var existing := files(fname.value);
    if existing.None? {
      return Err(FileAccess), None;
    }
    var file := new OutputFile(existing.value);
    r := ExtractAndCheck(video, w, h, info, file, digest);
    written := Some((name, file.contents));
  }

  /** The header read of decode_video. */
  method ReadHeader(video: seq<Image>, w: u32, h: u32) returns (r: Result<(string, u32, u32, u32)>)
    ensures r == HeaderSpec(video, w, h)
  {
    var hp := MaxPixelSize(HEAD_LENGHT, w, h);
    if hp.Err? {
      return Err(hp.error);
    }
    var frame := Captured(video, 0);
    var bits := DecodeBlackAndWhite(frame, w, h, hp.value);
    if bits.Err? {
      return Err(bits.error);
    }
    r := ParseHeadpage(bits.value);
  }

  /** decode_video once the output file is open: bits_per_page, the loop, then the checksum. */
  method ExtractAndCheck(video: seq<Image>, w: u32, h: u32, info: VideoInfo, file: OutputFile,
                         digest: seq<u8> -> Option<string>) returns (r: Result<Verdict>)
    requires info.checksum.Some? && info.filename.Some? && info.totalFrames.Some? && info.unusedBytes.Some?
    requires info.totalFrames.value < U32_LIMIT
    modifies info, file
    ensures info.State() == old(info.State())
    ensures var o := ExtractRun(video, w, h, info.videoType, info.checksum.value, info.filename.value,
                                info.pixelSize, info.unusedBytes.value, info.totalFrames.value, old(file.contents), digest);
      o == Outcome(r, Some((info.filename.value, file.contents)))
  {
    var s := info.pixelSize;
    if s == 0 {
      return Err(Panic);
    }
    var cols := w / s;
    var rows := h / s;
    if cols * rows >= U32_LIMIT {
      return Err(Panic);
    }
    var bitsPerPage := cols * rows;
    var res := ExtractFrames(video, w, h, info, bitsPerPage, file);
    if res.Err? {
      return Err(res.error);
    }
    var d := digest(file.contents);
    if d.None? {
      return Err(ChecksumFailed);
    }
    r := Ok(if d.value == info.checksum.value then Intact else Corrupted);
  }

  /** The loop of decode_video over the payload frames, with the record read from the header. */
  method ExtractFrames(video: seq<Image>, w: u32, h: u32, info: VideoInfo, bpp: nat, file: OutputFile)
    returns (r: Result<()>)
    requires info.totalFrames.Some? && info.unusedBytes.Some? && info.pixelSize > 0
    modifies info, file
    ensures info.State() == old(info.State())
    ensures (r, file.contents) == ExtractFrom(Decoded(video, w, h, info.pixelSize, info.totalFrames.value),
                                              info.videoType, bpp, info.unusedBytes.value, 0, old(file.contents))
  {
    ghost var buffers := Decoded(video, w, h, info.pixelSize, info.totalFrames.value);
    ghost var start := file.contents;
    ghost var vt := info.videoType;
    ghost var u := info.unusedBytes.value;
    var s := info.pixelSize;
    var total := info.TotalFrames(None);
    var step := bpp / 8;
    var offset: nat := 0;
    var i := 0;
    while i < total.value
      invariant info.State() == old(info.State()) && total == Ok(|buffers|) && i <= |buffers|
      invariant offset == i * step
      invariant ExtractFrom(buffers, vt, bpp, u, i, file.contents) == ExtractFrom(buffers, vt, bpp, u, 0, start)
    {
      var frame := Captured(video, i + 1);
      assert Samples(frame, w, h, s) == buffers[i];
      var last, unused := LastFrame(info, i);
      ghost var before := file.contents;
      var res := ExtractFrame(frame, w, h, s, info.videoType, bpp, unused, last, offset, file);
      ExtractFromStep(buffers, vt, bpp, u, i, before);
      if res.Err? {
        return res;
      }
      assert (i + 1) * step == offset + step;
      offset := offset + step;
      i := i + 1;
    }
    r := Ok(());
  }

  /** One frame of the loop: its step, then the rest. */
  lemma ExtractFromStep(buffers: seq<Result<seq<bool>>>, vt: VideoType, bpp: nat, unused: u32, i: nat, c: seq<u8>)
    requires i < |buffers|
    ensures var step := FrameStep(buffers[i], vt, bpp, unused, i == |buffers| - 1, i * (bpp / 8), c);
      ExtractFrom(buffers, vt, bpp, unused, i, c)
      == if step.Err? then (Err(step.error), c) else ExtractFrom(buffers, vt, bpp, unused, i + 1, step.value)
  {
  }

  /** Whether frame i is the last, and then the unused bytes, from the record's accessors. */
  method LastFrame(info: VideoInfo, i: nat) returns (last: bool, unused: u32)
    requires info.totalFrames.Some? && info.unusedBytes.Some?
    modifies info
    ensures info.State() == old(info.State())
    ensures last == (i == info.totalFrames.value - 1) && (last ==> unused == info.unusedBytes.value)
  {
    var tf := info.TotalFrames(None);
    last := i == tf.value - 1;
    unused := 0;
    if last {
      var u := info.UnusedBytes(None);
      unused := u.value;
    }
  }

  /** The body of decode_video's loop for one frame. */
  method ExtractFrame(frame: Image, w: u32, h: u32, s: u32, vt: VideoType, bpp: nat, unused: u32,
                      last: bool, offset: nat, file: OutputFile) returns (r: Result<()>)
    modifies file
    ensures var step := FrameStep(Samples(frame, w, h, s), vt, bpp, unused, last, offset, old(file.contents));
      if step.Err? then r == Err(step.error) && file.contents == old(file.contents)
      else r == Ok(()) && file.contents == step.value
  {
    if vt != BlackNWhite {
      return Err(NotImplemented);
    }
    var buffer := DecodeBlackAndWhite(frame, w, h, s);
    if buffer.Err? {
      return Err(buffer.error);
    }
    if |buffer.value| != bpp {
      return Err(FrameLength);
    }
    var bits := buffer.value;
    if last {
      var cut := unused * 8;
      if cut >= U32_LIMIT || cut > |bits| {
        return Err(Panic);
      }
      bits := bits[..|bits| - cut];
    }
    var bytes := PagesToBytes(bits);
    file.WriteAllAt(bytes, offset);
    r := Ok(());
  }
}
