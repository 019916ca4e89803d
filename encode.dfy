/** The encoder of src/encode.rs: checks the frame geometry, writes the header frame, then cuts
    the file into frames of bytes_per_frame bytes, the last one padded with zero bytes. A frame
    leaves the model as the page Frame::new is given: its bits, block size and frame size. */
module Encode {
  import opened Types
  import opened Arith
  import opened Convert
  import opened Head
  import opened Session
  import opened Raster

  /** The header frame is always 1280x720 pixels in blocks of 40. */
  const HEAD_BLOCK: nat := 40
  const VIDEO_WIDTH: nat := 1280
  const VIDEO_HEIGHT: nat := 720

  /** What one frame of the video carries: the bits, the block size and the frame size. */
  datatype Page = Page(bits: seq<bool>, blockSize: nat, width: nat, height: nat)

  /* ---------------------------------------------------------------------------------------- */
  /* Specification                                                                            */

  /** The bytes of payload frame k: the next bytes_per_frame bytes of the file, zero once the
      file is exhausted. */
  function FrameBytes(src: seq<u8>, k: nat, bpf: nat): (r: seq<u8>)
    ensures |r| == bpf
  {
    seq(bpf, i requires 0 <= i < bpf => if k * bpf + i < |src| then src[k * bpf + i] else 0)
  }

  /** The first n payload pages. */
  function Payload(src: seq<u8>, bpf: nat, n: nat, p: nat, w: nat, h: nat): (r: seq<Page>)
    ensures |r| == n
  {
    seq(n, k requires 0 <= k < n => Page(BytesToBits(FrameBytes(src, k, bpf)), p, w, h))
  }

  /** The file's bytes followed by zero bytes up to length len. */
  function Padded(src: seq<u8>, len: nat): (r: seq<u8>)
    ensures |r| == len
  {
    seq(len, i requires 0 <= i < len => if i < |src| then src[i] else 0)
  }

  function ZeroBytes(m: nat): (r: seq<u8>)
    ensures |r| == m
  {
    seq(m, _ => 0)
  }

  /** The bits of a run of pages, one after the other. */
  function Flatten(pages: seq<Page>): seq<bool>
  {
    if pages == [] then [] else Flatten(pages[..|pages| - 1]) + pages[|pages| - 1].bits
  }

  lemma BlocksBound(w: nat, h: nat, p: nat)
    requires p > 0
    ensures (w / p) * (h / p) <= w * h
  {
    DivLe(w, p);
    DivLe(h, p);
    MulMono(w / p, w, h / p);
    MulMono(h / p, h, w);
  }

  /** bytes_per_frame: one byte per eight blocks. */
  function Bpf(w: u32, h: u32, p: u32): (r: u32)
    requires p > 0 && w * h < U32_LIMIT
    ensures 8 * r <= (w / p) * (h / p) < 8 * r + 8
  {
    BlocksBound(w, h, p);
    (w / p) * (h / p) / 8
  }

  /** What create_video produces: the failures of its geometry checks (a zero block size divides
      by zero, a product beyond u32 overflows), then what the rest of it yields. */
  function CreateVideoSpec(src: seq<u8>, filename: string, w: u32, h: u32, p: u32): Result<seq<Page>>
  {
    if p == 0 then Err(Panic)
    else if w % p != 0 || h % p != 0 then Err(Incompatible)
    else if w * h >= U32_LIMIT then Err(Panic)
    else if (w * h) % 8 != 0 then Err(CannotStoreBytes)
    else EncodeFrames(src, filename, w, h, p, Bpf(w, h, p))
  }

  /** The rest of create_video, once bytes_per_frame is known: the failures of the unused-byte
      count, of gen_headpage and of Frame::new on the payload frames; otherwise the header page,
      then one page per frame of the file. */
  function EncodeFrames(src: seq<u8>, filename: string, w: u32, h: u32, p: u32, bpf: u32): Result<seq<Page>>
  {
    var frames := FramesCount(|src|, bpf);
    match UnusedBytesU32(bpf, frames, |src|)
    case Err(e) => Err(e)
    case Ok(remain) =>
      match HeadPage(filename, p, remain, frames % U32_LIMIT)
      case Err(e) => Err(e)
      case Ok(head) =>
        if frames > 0 && FrameCheck(8 * bpf, p, w, h).Err? then Err(FrameCheck(8 * bpf, p, w, h).error)
        else Ok([Page(head, HEAD_BLOCK, VIDEO_WIDTH, VIDEO_HEIGHT)] + Payload(src, bpf, frames, p, w, h))
  }

  /* ---------------------------------------------------------------------------------------- */
  /* Lemmas                                                                                   */

  /** vec![false; 8] is the byte 0 as eight bits. */
  lemma ZeroByteBits()
    ensures BitsOf(0) == Zeros(8)
    ensures BytesToBits([0]) == Zeros(8)
  {
    BitsOfProps(0);
    ZeroChunk(BitsOf(0));
    assert BytesToBits([0]) == BitsOf(0) + BytesToBits([]);
  }

  lemma {:induction false} BytesToBitsZeros(m: nat)
    ensures BytesToBits(ZeroBytes(m)) == Zeros(8 * m)
  {
    if m > 0 {
      BytesToBitsZeros(m - 1);
      assert ZeroBytes(m) == [0] + ZeroBytes(m - 1);
      assert ZeroBytes(m)[1..] == ZeroBytes(m - 1);
      ZeroByteBits();
      assert Zeros(8 * m) == Zeros(8) + Zeros(8 * (m - 1));
    }
  }

  /** The header page always passes Frame::new's checks: 328 bits on 32 x 18 blocks. */
  lemma HeaderFrameAccepted(head: seq<bool>, filename: string, p: u32, remain: u32, frames: u32)
    requires HeadPage(filename, p, remain, frames) == Ok(head)
    ensures FrameCheck(|head|, HEAD_BLOCK, VIDEO_WIDTH, VIDEO_HEIGHT) == Ok(())
  {
    HeadPageLength(filename, p, remain, frames);
  }

  /** A payload page passes Frame::new's checks unless a side of the frame exceeds an i32:
      8 * bytes_per_frame bits never outnumber the blocks. */
  lemma PayloadFrameAccepted(w: nat, h: nat, p: nat, bpf: nat)
    requires p > 0 && 8 * bpf <= (w / p) * (h / p) < U32_LIMIT
    ensures FrameCheck(8 * bpf, p, w, h) == if h >= I32_LIMIT || w >= I32_LIMIT then Err(Panic) else Ok(())
  {
  }

  /** The file padded to n = m + 1 frames is the file padded to m frames, then frame m. */
  lemma PaddedStep(src: seq<u8>, m: nat, n: nat, bpf: nat)
    requires n == m + 1
    ensures Padded(src, n * bpf) == Padded(src, m * bpf) + FrameBytes(src, m, bpf)
  {
    var base := m * bpf;
    assert n * bpf == base + bpf;
    var a := Padded(src, n * bpf);
    var b := Padded(src, base) + FrameBytes(src, m, bpf);
    forall i | 0 <= i < |a|
      ensures a[i] == b[i]
    {
      if i >= base {
        assert b[i] == FrameBytes(src, m, bpf)[i - base];
      }
    }
  }

  /** The payload pages carry the file padded with zero bytes to a whole number of frames. */
  lemma {:induction false} PayloadBits(src: seq<u8>, bpf: nat, n: nat, p: nat, w: nat, h: nat)
    ensures Flatten(Payload(src, bpf, n, p, w, h)) == BytesToBits(Padded(src, n * bpf))
    decreases n
  {
    if n == 0 {
      assert Padded(src, 0) == [];
    } else {
      var m := n - 1;
      PayloadBits(src, bpf, m, p, w, h);
      assert Flatten(Payload(src, bpf, n, p, w, h)) ==
        Flatten(Payload(src, bpf, m, p, w, h)) + BytesToBits(FrameBytes(src, m, bpf)) by {
        assert Payload(src, bpf, n, p, w, h)[..m] == Payload(src, bpf, m, p, w, h);
      }
      PaddedStep(src, m, n, bpf);
      BytesToBitsAppend(Padded(src, m * bpf), FrameBytes(src, m, bpf));
    }
  }

  lemma PaddedFile(src: seq<u8>, len: nat)
    requires len >= |src|
    ensures Padded(src, len) == src + ZeroBytes(len - |src|)
  {
  }

  /** The bits of the file padded to len bytes: the file's bits, then zero bits. */
  lemma PaddedBits(src: seq<u8>, len: nat)
    requires len >= |src|
    ensures BytesToBits(Padded(src, len)) == BytesToBits(src) + Zeros(8 * (len - |src|))
  {
    var z := ZeroBytes(len - |src|);
    PaddedFile(src, len);
    BytesToBitsAppend(src, z);
    BytesToBitsZeros(len - |src|);
  }

  /** A successful encoding is the header page for (name, block size, unused bytes, frame count
      as u32) framed at 1280x720 in blocks of 40, followed by one page per frame, page k + 1
      holding the bits of frame k's bytes: 8 * bytes_per_frame bits. */
  lemma EncodedLayout(src: seq<u8>, filename: string, w: u32, h: u32, p: u32, bpf: u32)
    requires EncodeFrames(src, filename, w, h, p, bpf).Ok?
    ensures var frames := FramesCount(|src|, bpf);
      var pages := EncodeFrames(src, filename, w, h, p, bpf).value;
      UnusedBytesU32(bpf, frames, |src|).Ok?
      && |pages| == 1 + frames
      && pages[0] == Page(HeadPage(filename, p, UnusedBytesU32(bpf, frames, |src|).value, frames % U32_LIMIT).value,
                          HEAD_BLOCK, VIDEO_WIDTH, VIDEO_HEIGHT)
      && forall k | 1 <= k < |pages| ::
        pages[k] == Page(BytesToBits(FrameBytes(src, k - 1, bpf)), p, w, h) && |pages[k].bits| == 8 * bpf
  {
    var pages := EncodeFrames(src, filename, w, h, p, bpf).value;
    forall k | 1 <= k < |pages|
      ensures |pages[k].bits| == 8 * bpf
    {
      BytesToBitsLength(FrameBytes(src, k - 1, bpf));
    }
  }

  /** A successful create_video passed its geometry checks, and every payload page fits the
      blocks of its frame. */
  lemma PagesFitFrames(src: seq<u8>, filename: string, w: u32, h: u32, p: u32)
    requires CreateVideoSpec(src, filename, w, h, p).Ok?
    ensures p > 0 && w % p == 0 && h % p == 0 && w * h < U32_LIMIT && (w * h) % 8 == 0
    ensures CreateVideoSpec(src, filename, w, h, p) == EncodeFrames(src, filename, w, h, p, Bpf(w, h, p))
    ensures var pages := CreateVideoSpec(src, filename, w, h, p).value;
      forall k | 1 <= k < |pages| :: |pages[k].bits| <= (w / p) * (h / p)
  {
    EncodedLayout(src, filename, w, h, p, Bpf(w, h, p));
  }

  /** The payload of a successful encoding of a file below 4 GiB, on frames that hold at least
      one byte, is the file's bits followed by eight zero bits per unused byte. */
  lemma PayloadIsFile(src: seq<u8>, filename: string, w: u32, h: u32, p: u32, bpf: u32)
    requires EncodeFrames(src, filename, w, h, p, bpf).Ok? && |src| < U32_LIMIT && bpf > 0
    ensures var pages := EncodeFrames(src, filename, w, h, p, bpf).value;
      var remain := UnusedBytesU32(bpf, FramesCount(|src|, bpf), |src|);
      remain.Ok? && remain.value < bpf
      && Flatten(pages[1..]) == BytesToBits(src) + Zeros(8 * remain.value)
  {
    var frames := FramesCount(|src|, bpf);
    EncodedTail(src, filename, w, h, p, bpf);
    PaddedPayload(src, bpf, p, w, h);
  }

  /** The pages after the header of a successful encoding are the payload pages. */
  lemma EncodedTail(src: seq<u8>, filename: string, w: u32, h: u32, p: u32, bpf: u32)
    requires EncodeFrames(src, filename, w, h, p, bpf).Ok?
    ensures UnusedBytesU32(bpf, FramesCount(|src|, bpf), |src|).Ok?
    ensures EncodeFrames(src, filename, w, h, p, bpf).value[1..] == Payload(src, bpf, FramesCount(|src|, bpf), p, w, h)
  {
  }

  /** The payload pages of a file below 4 GiB hold its bits, then eight zero bits per unused byte. */
  lemma PaddedPayload(src: seq<u8>, bpf: u32, p: nat, w: nat, h: nat)
    requires |src| < U32_LIMIT && bpf > 0 && UnusedBytesU32(bpf, FramesCount(|src|, bpf), |src|).Ok?
    ensures var frames := FramesCount(|src|, bpf);
      var remain := UnusedBytesU32(bpf, frames, |src|).value;
      remain < bpf
      && Flatten(Payload(src, bpf, frames, p, w, h)) == BytesToBits(src) + Zeros(8 * remain)
  {
    var frames := FramesCount(|src|, bpf);
    UnusedBytesArePadding(bpf, |src|);
    var remain := UnusedBytesU32(bpf, frames, |src|).value;
    var len := frames * bpf;
    assert len >= |src| && len - |src| == remain by {
      FramesCountIsCeiling(|src|, bpf);
      assert len == bpf * frames;
    }
    PayloadBits(src, bpf, frames, p, w, h);
    PaddedBits(src, len);
  }

  /** An ASCII name without NUL and a block size below 256 are read back from the header page
      as they were given, with the unused bytes and the frame count as u32. */
  lemma HeaderReadsBack(src: seq<u8>, filename: string, w: u32, h: u32, p: u32, bpf: u32)
    requires EncodeFrames(src, filename, w, h, p, bpf).Ok?
    requires IsAscii(filename) && NoNul(filename) && p < 256
    ensures var frames := FramesCount(|src|, bpf);
      ParseHead(EncodeFrames(src, filename, w, h, p, bpf).value[0].bits) ==
        Ok((filename, p, UnusedBytesU32(bpf, frames, |src|).value, frames % U32_LIMIT))
  {
    EncodedLayout(src, filename, w, h, p, bpf);
    var frames := FramesCount(|src|, bpf);
    var remain := UnusedBytesU32(bpf, frames, |src|).value;
    HeadPageAscii(filename, p, remain, frames % U32_LIMIT);
    HeadRoundTrip(filename, p, remain, frames % U32_LIMIT);
  }

  /** Encoding succeeds whenever the geometry checks pass, the frame holds a byte, the file and
      one more frame stay below 4 GiB, the name is ASCII of at most 32 characters and the block
      size and the frame sides fit their types. */
  lemma CreateVideoSucceeds(src: seq<u8>, filename: string, w: u32, h: u32, p: u32)
    requires 0 < p < 256 && w % p == 0 && h % p == 0 && w * h < U32_LIMIT && (w * h) % 8 == 0
    requires (w / p) * (h / p) >= 8 && |src| + Bpf(w, h, p) <= U32_LIMIT
    requires IsAscii(filename) && |filename| <= 32
    requires w < I32_LIMIT && h < I32_LIMIT
    ensures CreateVideoSpec(src, filename, w, h, p).Ok?
  {
    var bpf := Bpf(w, h, p);
    BlocksBound(w, h, p);
    UnusedBytesArePadding(bpf, |src|);
    var frames := FramesCount(|src|, bpf);
    var remain := UnusedBytesU32(bpf, frames, |src|).value;
    HeadPageAscii(filename, p, remain, frames % U32_LIMIT);
    PayloadFrameAccepted(w, h, p, bpf);
  }

  /* ---------------------------------------------------------------------------------------- */
  /* create_video                                                                             */

  /** create_video on the file's bytes `src`: the frames it hands to the video writer, in
      order. */
  method CreateVideo(src: seq<u8>, filename: string, w: u32, h: u32, p: u32) returns (r: Result<seq<Page>>)
    ensures r == CreateVideoSpec(src, filename, w, h, p)
  {
    if p == 0 {
      return Err(Panic);
    }
    if w % p != 0 || h % p != 0 {
      return Err(Incompatible);
    }
    if w * h >= U32_LIMIT {
      return Err(Panic);
    }
    if (w * h) % 8 != 0 {
      return Err(CannotStoreBytes);
    }
    var bytesPerFrame := Bpf(w, h, p);
    r := WriteFrames(src, filename, w, h, p, bytesPerFrame);
  }

  /** The part of create_video after bytes_per_frame: the counts, the header, then one frame
      per loop round. */
  method WriteFrames(src: seq<u8>, filename: string, w: u32, h: u32, p: u32, bpf: u32) returns (r: Result<seq<Page>>)
    ensures r == EncodeFrames(src, filename, w, h, p, bpf)
  {
    var fileSize := |src|;
    var framesCount := FramesCount(fileSize, bpf);
    var remain := UnusedBytesU32(bpf, framesCount, fileSize);
    if remain.Err? {
      return Err(remain.error);
    }
    var head := GenHeadpage(filename, p, remain.value, framesCount % U32_LIMIT);
    if head.Err? {
      return Err(head.error);
    }
    var first := Page(head.value, HEAD_BLOCK, VIDEO_WIDTH, VIDEO_HEIGHT);
    var pages := [first];
    var pos := 0;  // how far the byte iterator has read
    var k := 0;
    while k < framesCount
      invariant k <= framesCount
      invariant pos == Min(|src|, k * bpf)
      invariant pages == [first] + Payload(src, bpf, k, p, w, h)
      invariant k > 0 ==> FrameCheck(8 * bpf, p, w, h).Ok?
    {
      var data;
      data, pos := ReadFrame(src, k, bpf, pos);
      BytesToBitsLength(FrameBytes(src, k, bpf));
      var check := FrameCheck(|data|, p, w, h);
      if check.Err? {
        return Err(check.error);
      }
      assert Payload(src, bpf, k + 1, p, w, h) == Payload(src, bpf, k, p, w, h) + [Page(data, p, w, h)];
      pages := pages + [Page(data, p, w, h)];
      k := k + 1;
    }
    r := Ok(pages);
  }

  /** One frame's data: bytes_per_frame calls of the byte iterator, eight bits per byte read and
      eight false bits once it is exhausted. */
  method ReadFrame(src: seq<u8>, k: nat, bpf: nat, pos: nat) returns (data: seq<bool>, next: nat)
    requires pos == Min(|src|, k * bpf)
    ensures data == BytesToBits(FrameBytes(src, k, bpf))
    ensures next == Min(|src|, (k + 1) * bpf)
  {
    var base := k * bpf;
    ghost var bytes := FrameBytes(src, k, bpf);
    data := [];
    next := pos;
    var i := 0;
    while i < bpf
      invariant i <= bpf
      invariant next == Min(|src|, base + i)
      invariant data == BytesToBits(bytes[..i])
    {
      assert bytes[..i + 1] == bytes[..i] + [bytes[i]];
      BytesToBitsAppend(bytes[..i], [bytes[i]]);
      assert BytesToBits([bytes[i]]) == BitsOf(bytes[i]) + BytesToBits([]);
      if next < |src| {
        var bits := ByteToBits(src[next]);
        data := data + bits;
        next := next + 1;
      } else {
        ZeroByteBits();
        data := data + Zeros(8);
      }
      i := i + 1;
    }
    assert bytes[..bpf] == bytes;
    assert (k + 1) * bpf == base + bpf;
  }
}
