/** What a file goes through from create_video to decode_video: the payload frames the encoder
    produces, read back at the decoder's block count, rebuild the file; the header frame reads
    back at the block size it was painted with. Also the two places where the decoder does not
    read back what the encoder wrote, each beside its corrected form. */
module RoundTrip {
  import opened Types
  import opened Arith
  import opened Convert
  import opened Head
  import opened Session
  import opened Raster
  import opened Encode
  import opened Decode

  /* ---------------------------------------------------------------------------------------- */
  /* Frame contents                                                                           */

  /** A frame that lies wholly inside the file holds a slice of it. */
  lemma FullFrameBytes(src: seq<u8>, i: nat, bpf: nat)
    requires (i + 1) * bpf <= |src|
    ensures i * bpf <= (i + 1) * bpf
    ensures FrameBytes(src, i, bpf) == src[i * bpf .. (i + 1) * bpf]
  {
    assert (i + 1) * bpf == i * bpf + bpf;
  }

  /** The frame that reaches the end of the file holds its tail, then `remain` zero bytes. */
  lemma LastFrameBytes(src: seq<u8>, i: nat, bpf: nat, remain: nat)
    requires i * bpf <= |src| && i * bpf + bpf == |src| + remain
    ensures FrameBytes(src, i, bpf) == src[i * bpf ..] + ZeroBytes(remain)
  {
  }

  /** The bytes the decoder writes for payload frame i of a file of f frames, with the unused
      bytes cut from the last: the file's slice from i * bpf, up to the next frame or the end. */
  lemma FrameWritesSlice(src: seq<u8>, bpf: nat, remain: u32, f: nat, i: nat, e: seq<u8>)
    requires bpf > 0 && 8 * bpf <= U32_LIMIT && i < f
    requires f == FramesCount(|src|, bpf) && remain == f * bpf - |src|
    ensures i * bpf < |src|
    ensures FrameStep(Ok(BytesToBits(FrameBytes(src, i, bpf))), BlackNWhite, 8 * bpf, remain, i == f - 1,
                      i * (8 * bpf / 8), Overwrite(e, src[..i * bpf], 0))
         == Ok(Overwrite(e, src[..Min((i + 1) * bpf, |src|)], 0))
  {
    FramesCountIsCeiling(|src|, bpf);
    MulMono(i, f - 1, bpf);
    assert (f - 1) * bpf == f * bpf - bpf;
    assert 8 * bpf / 8 == bpf;
    BytesToBitsLength(FrameBytes(src, i, bpf));
    if i < f - 1 {
      MulMono(i + 1, f - 1, bpf);
      MiddleFrameWrites(src, bpf, i, e);
    } else {
      assert i * bpf + bpf == |src| + remain;
      assert 8 * remain < U32_LIMIT;
      LastFrameWrites(src, bpf, remain, i, e);
      assert Min((i + 1) * bpf, |src|) == |src|;
      assert src[..|src|] == src;
    }
  }

  lemma MiddleFrameWrites(src: seq<u8>, bpf: nat, i: nat, e: seq<u8>)
    requires (i + 1) * bpf <= |src|
    ensures i * bpf <= (i + 1) * bpf
    ensures Overwrite(Overwrite(e, src[..i * bpf], 0), Pack(BytesToBits(FrameBytes(src, i, bpf))), i * bpf)
         == Overwrite(e, src[..(i + 1) * bpf], 0)
  {
    var bytes := FrameBytes(src, i, bpf);
    FullFrameBytes(src, i, bpf);
    PackBytesToBits(bytes);
    OverwriteConcat(e, src[..i * bpf], bytes);
    assert src[..i * bpf] + bytes == src[..(i + 1) * bpf];
  }

  lemma LastFrameWrites(src: seq<u8>, bpf: nat, remain: u32, i: nat, e: seq<u8>)
    requires i * bpf <= |src| && i * bpf + bpf == |src| + remain && 8 * remain < U32_LIMIT
    ensures var buffer := BytesToBits(FrameBytes(src, i, bpf));
      LastCut(buffer, remain).Ok?
      && Overwrite(Overwrite(e, src[..i * bpf], 0), Pack(LastCut(buffer, remain).value), i * bpf) == Overwrite(e, src, 0)
  {
    var tail := src[i * bpf ..];
    var buffer := BytesToBits(FrameBytes(src, i, bpf));
    LastFrameBytes(src, i, bpf, remain);
    BytesToBitsAppend(tail, ZeroBytes(remain));
    BytesToBitsLength(tail);
    BytesToBitsLength(ZeroBytes(remain));
    assert LastCut(buffer, remain) == Ok(BytesToBits(tail));
    PackBytesToBits(tail);
    OverwriteConcat(e, src[..i * bpf], tail);
    assert src[..i * bpf] + tail == src;
  }

  /** The decoder's loop, from frame i on, over frames holding the encoder's payload pages,
      finishes writing the file over whatever the output file held. */
  lemma {:induction false} ExtractPayload(src: seq<u8>, bpf: nat, remain: u32, buffers: seq<Result<seq<bool>>>,
                                          i: nat, e: seq<u8>)
    requires bpf > 0 && 8 * bpf <= U32_LIMIT && i <= |buffers|
    requires |buffers| == FramesCount(|src|, bpf) && remain == |buffers| * bpf - |src|
    requires forall k | 0 <= k < |buffers| :: buffers[k] == Ok(BytesToBits(FrameBytes(src, k, bpf)))
    ensures ExtractFrom(buffers, BlackNWhite, 8 * bpf, remain, i, Overwrite(e, src[..Min(i * bpf, |src|)], 0))
         == (Ok(()), Overwrite(e, src, 0))
    decreases |buffers| - i
  {
    var f := |buffers|;
    if i == f {
      FramesCountIsCeiling(|src|, bpf);
      assert src[..Min(i * bpf, |src|)] == src;
    } else {
      FrameWritesSlice(src, bpf, remain, f, i, e);
      ExtractPayload(src, bpf, remain, buffers, i + 1, e);
      assert src[..Min(i * bpf, |src|)] == src[..i * bpf];
    }
  }

  /** Frames holding exactly the payload pages of a successful encoding, decoded with the
      encoder's unused-byte count and 8 * bytes_per_frame bits per frame, overwrite the output
      file with the file from its first byte on. */
  lemma PayloadRoundTrip(src: seq<u8>, filename: string, w: u32, h: u32, p: u32, bpf: u32,
                         buffers: seq<Result<seq<bool>>>, e: seq<u8>)
    requires EncodeFrames(src, filename, w, h, p, bpf).Ok? && |src| < U32_LIMIT && 8 * bpf <= U32_LIMIT
    requires var pages := EncodeFrames(src, filename, w, h, p, bpf).value;
      |buffers| == |pages| - 1 && forall k | 0 <= k < |buffers| :: buffers[k] == Ok(pages[k + 1].bits)
    ensures var remain := UnusedBytesU32(bpf, FramesCount(|src|, bpf), |src|);
      remain.Ok? && ExtractFrom(buffers, BlackNWhite, 8 * bpf, remain.value, 0, e) == (Ok(()), Overwrite(e, src, 0))
  {
    EncodedLayout(src, filename, w, h, p, bpf);
    var f := FramesCount(|src|, bpf);
    var remain := UnusedBytesU32(bpf, f, |src|).value;
    if bpf == 0 {
      assert |src| == 0;
      assert buffers == [];
    } else {
      UnusedBytesArePadding(bpf, |src|);
      assert remain == f * bpf - |src|;
      ExtractPayload(src, bpf, remain, buffers, 0, e);
      assert src[..Min(0 * bpf, |src|)] == [];
    }
  }

  /* ---------------------------------------------------------------------------------------- */
  /* Finding: the divisibility check of create_video                                          */

  /** create_video with the check it evidently intends: the blocks of a frame, not its pixels,
      must come in whole bytes, so that every block carries a payload bit. */
  function CreateVideoFixed(src: seq<u8>, filename: string, w: u32, h: u32, p: u32): Result<seq<Page>>
  {
    if p == 0 then Err(Panic)
    else if w % p != 0 || h % p != 0 then Err(Incompatible)
    else if w * h >= U32_LIMIT then Err(Panic)
    else if ((w / p) * (h / p)) % 8 != 0 then Err(CannotStoreBytes)
    else EncodeFrames(src, filename, w, h, p, Bpf(w, h, p))
  }

  /** With the corrected check, frames decoded to all their blocks, the painted ones giving back
      the page's bits, rebuild the file: a fresh output file ends up holding exactly the file. */
  lemma FixedRoundTrip(src: seq<u8>, filename: string, w: u32, h: u32, p: u32,
                       buffers: seq<Result<seq<bool>>>, e: seq<u8>)
    requires CreateVideoFixed(src, filename, w, h, p).Ok? && |src| < U32_LIMIT
    requires var pages := CreateVideoFixed(src, filename, w, h, p).value;
      |buffers| == |pages| - 1
      && forall k | 0 <= k < |buffers| ::
        buffers[k].Ok? && |buffers[k].value| == (w / p) * (h / p) && pages[k + 1].bits <= buffers[k].value
    ensures var bpf := Bpf(w, h, p);
      var remain := UnusedBytesU32(bpf, FramesCount(|src|, bpf), |src|);
      remain.Ok? && ExtractFrom(buffers, BlackNWhite, (w / p) * (h / p), remain.value, 0, e) == (Ok(()), Overwrite(e, src, 0))
    ensures |e| <= |src| ==> Overwrite(e, src, 0) == src
  {
    var bpf := Bpf(w, h, p);
    var blocks := (w / p) * (h / p);
    WholeBytesOfBlocks(w, h, p);
    assert blocks == 8 * bpf;
    var pages := EncodeFrames(src, filename, w, h, p, bpf).value;
    EncodedLayout(src, filename, w, h, p, bpf);
    PrefixBuffers(pages, buffers, blocks);
    PayloadRoundTrip(src, filename, w, h, p, bpf, buffers, e);
    if |e| <= |src| {
      OverwriteAll(e, src);
    }
  }

  /** Buffers of n bits that begin with the n bits of the pages after the first are those bits. */
  lemma PrefixBuffers(pages: seq<Page>, buffers: seq<Result<seq<bool>>>, n: nat)
    requires |buffers| == |pages| - 1
    requires forall k | 1 <= k < |pages| :: |pages[k].bits| == n
    requires forall k | 0 <= k < |buffers| :: buffers[k].Ok? && |buffers[k].value| == n && pages[k + 1].bits <= buffers[k].value
    ensures forall k | 0 <= k < |buffers| :: buffers[k] == Ok(pages[k + 1].bits)
  {
    forall k | 0 <= k < |buffers|
      ensures buffers[k] == Ok(pages[k + 1].bits)
    {
      var v := buffers[k].value;
      assert |pages[k + 1].bits| == n;
      assert pages[k + 1].bits == v[..n] && v[..n] == v;
    }
  }

  /** When the blocks come in whole bytes, the payload bits of a frame are all its blocks, and a
      frame's bits stay within u32. */
  lemma WholeBytesOfBlocks(w: u32, h: u32, p: u32)
    requires p > 0 && w * h < U32_LIMIT && ((w / p) * (h / p)) % 8 == 0
    ensures (w / p) * (h / p) == 8 * Bpf(w, h, p) && 8 * Bpf(w, h, p) <= U32_LIMIT
  {
    BlocksBound(w, h, p);
  }

  /** As written, create_video accepts 24x24 frames in blocks of 8: 576 pixels pass the check,
      but the 9 blocks hold one byte and one spare block. The decoder reads all 9 blocks, so a
      one-byte file comes back with a second byte made of the spare block's bit. */
  lemma TrailingByte(src: seq<u8>, filename: string, spare: bool)
    requires |src| == 1 && IsAscii(filename) && |filename| <= 32
    ensures CreateVideoSpec(src, filename, 24, 24, 8).Ok?
    ensures var pages := CreateVideoSpec(src, filename, 24, 24, 8).value;
      |pages| == 2 && |pages[1].bits| == 8
      && UnusedBytesU32(Bpf(24, 24, 8), FramesCount(1, Bpf(24, 24, 8)), 1) == Ok(0)
      && pages[1].bits == BytesToBits(src)
      && ExtractFrom([Ok(pages[1].bits + [spare])], BlackNWhite, 9, 0, 0, [])
         == (Ok(()), src + [if spare then 1 else 0])
  {
    assert Bpf(24, 24, 8) == 1;
    CreateVideoSucceeds(src, filename, 24, 24, 8);
    EncodedLayout(src, filename, 24, 24, 8, 1);
    assert FramesCount(1, 1) == 1;
    assert FrameBytes(src, 0, 1) == src;
    SpareBitByte(src, spare);
  }

  /** A byte's bits and one more bit pack into the byte, then a byte holding that bit. */
  lemma SpareBitByte(src: seq<u8>, spare: bool)
    requires |src| == 1
    ensures var buffer := BytesToBits(src) + [spare];
      ExtractFrom([Ok(buffer)], BlackNWhite, 9, 0, 0, []) == (Ok(()), src + [if spare then 1 else 0])
  {
    var bits := BytesToBits(src);
    BytesToBitsLength(src);
    PackBytesToBits(src);
    var buffer := bits + [spare];
    assert Chunk(buffer, 0) == bits == Chunk(bits, 0);
    assert Chunk(buffer, 1) == [spare];
    assert Value([spare]) == if spare then 1 else 0;
    assert Pack(buffer) == Pack(bits) + [if spare then 1 else 0];
    assert buffer[..|buffer| - 0] == buffer;
    OverwriteAll([], Pack(buffer));
  }

  /** At the writer's 1280x720, the check as written is enough: every block size it accepts
      leaves a whole number of bytes of blocks. */
  lemma HdBlocksAreBytes(p: u32)
    requires p > 0 && 1280 % p == 0 && 720 % p == 0
    ensures ((1280 / p) * (720 / p)) % 8 == 0
  {
    var a := 1280 / p;
    var b := 720 / p;
    assert a * p == 1280 && b * p == 720;
    var q := 4 * a - 7 * b;
    assert q * p == 80 by {
      assert q * p == 4 * (a * p) - 7 * (b * p);
    }
    assert a == 16 * q by {
      assert (a - 16 * q) * p == 0;
    }
    assert b == 9 * q by {
      assert (b - 9 * q) * p == 0;
    }
    assert a * b == 8 * (18 * q * q);
  }

  /* ---------------------------------------------------------------------------------------- */
  /* Finding: the header block size of decode_video                                           */

  /** With the header block size computed for the header's 328 bits, a first frame of 1280x720
      whose blocks of 40 begin with the header page the encoder painted gives back the file
      name, block size, unused bytes and frame count that went into it. */
  lemma HeaderRoundTripCorrected(video: seq<Image>, filename: string, p: u32, remain: u32, frames: u32)
    requires IsAscii(filename) && NoNul(filename) && |filename| <= 32 && p < 256
    requires HeadPage(filename, p, remain, frames).Ok? ==>
      var head := Samples(Captured(video, 0), 1280, 720, 40);
      head.Ok? && HeadPage(filename, p, remain, frames).value <= head.value
    ensures HeaderAt(video, 1280, 720, HEAD_BITS) == Ok((filename, p, remain, frames))
  {
    EncodeHeaderBlockSize();
    HeadRoundTrip(filename, p, remain, frames);
    var page := HeadPage(filename, p, remain, frames).value;
    var read := Samples(Captured(video, 0), 1280, 720, 40).value;
    assert read == page + read[|page|..];
    ParseHeadIgnoresTail(page, read[|page|..]);
  }
}
