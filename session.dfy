/** The session arithmetic of src/main.rs: the video modes and their byte ratios, greatest common
    divisors, the adaptive header block size, bytes per frame, and the VideoInfo record whose
    derived fields are computed once and then cached. */
module Session {
  import opened Types
  import opened Arith

  /** The header length main.rs declares (HEAD_LENGHT) and decode_video sizes its header block by. */
  const HEAD_LENGHT: nat := 844

  /* ---------------------------------------------------------------------------------------- */
  /* Video modes                                                                               */

  datatype VideoType = BlackNWhite | GrayScale | Color | Color8 | Color16

  /** Bytes per pixel of each mode, as a fraction (numerator, denominator). */
  function Ratio(vt: VideoType): (r: (u32, u32))
    ensures r.1 > 0
  {
    match vt
    case BlackNWhite => (1, 8)
    case GrayScale => (3, 8)
    case Color => (3, 8)
    case Color8 => (1, 2)
    case Color16 => (3, 2)
  }

  /** The command-line spelling of each mode. */
  function VideoTypeName(vt: VideoType): string
  {
    match vt
    case BlackNWhite => "black"
    case GrayScale => "grayscale"
    case Color => "color"
    case Color8 => "color8"
    case Color16 => "color16"
  }

  /** The mode `main` picks for a `--video-type` argument; any other string is fatal. */
  function ParseVideoType(s: string): Result<VideoType>
  {
    if s == "black" then Ok(BlackNWhite)
    else if s == "grayscale" then Ok(GrayScale)
    else if s == "color" then Ok(Color)
    else if s == "color8" then Ok(Color8)
    else if s == "color16" then Ok(Color16)
    else Err(UnknownVideoType)
  }

  /** Exactly the five names are accepted, each for its own mode. */
  lemma VideoTypeNames(s: string, vt: VideoType)
    ensures ParseVideoType(VideoTypeName(vt)) == Ok(vt)
    ensures ParseVideoType(s).Ok? ==> VideoTypeName(ParseVideoType(s).value) == s
    ensures ParseVideoType(s).Err? ==> ParseVideoType(s).error == UnknownVideoType
  {
  }

  /* ---------------------------------------------------------------------------------------- */
  /* Greatest common divisor                                                                   */

  predicate Divides(d: nat, n: nat)
  {
    d > 0 && n % d == 0
  }

  /** Euclid's algorithm, the reference gcd loops toward. */
  function GcdF(a: nat, b: nat): nat
    decreases b
  {
    if b == 0 then a else GcdF(b, a % b)
  }

  lemma ModCombine(g: nat, q: nat, b: nat, r: nat)
    requires g > 0 && b % g == 0 && r % g == 0
    ensures (q * b + r) % g == 0
  {
    var x := b / g;
    var y := r / g;
    DivMulExact(b, g);
    DivMulExact(r, g);
    assert q * b + r == (q * x + y) * g;
    MulDivCancel(q * x + y, g);
  }

  lemma ModDiff(d: nat, a: nat, b: nat)
    requires d > 0 && b > 0 && a % d == 0 && b % d == 0
    ensures (a % b) % d == 0
  {
    var x := a / d;
    var y := b / d;
    var q := a / b;
    DivMulExact(a, d);
    DivMulExact(b, d);
    assert a % b == (x - q * y) * d;
    MulDivCancel(x - q * y, d);
  }

  lemma DividesLe(d: nat, n: nat)
    requires Divides(d, n) && n > 0
    ensures d <= n
  {
    DivMulExact(n, d);
    MulMono(1, n / d, d);
  }

  /** The gcd divides both numbers and is a multiple of every common divisor. */
  lemma {:induction false} GcdIsGreatest(a: nat, b: nat)
    ensures a > 0 || b > 0 ==> GcdF(a, b) > 0 && Divides(GcdF(a, b), a) && Divides(GcdF(a, b), b)
    ensures forall d: nat :: Divides(d, a) && Divides(d, b) ==> Divides(d, GcdF(a, b))
    decreases b
  {
    if b != 0 {
      GcdIsGreatest(b, a % b);
      var g := GcdF(b, a % b);
      if a > 0 || b > 0 {
        assert a == (a / b) * b + a % b;
        ModCombine(g, a / b, b, a % b);
      }
      forall d: nat | Divides(d, a) && Divides(d, b)
        ensures Divides(d, GcdF(a, b))
      {
        ModDiff(d, a, b);
      }
    }
  }

  /** Unless both numbers are zero, no common divisor exceeds the gcd. */
  lemma GcdIsLargest(a: nat, b: nat)
    requires a > 0 || b > 0
    ensures forall d: nat :: Divides(d, a) && Divides(d, b) ==> d <= GcdF(a, b)
  {
    GcdIsGreatest(a, b);
    forall d: nat | Divides(d, a) && Divides(d, b)
      ensures d <= GcdF(a, b)
    {
      DividesLe(d, GcdF(a, b));
    }
  }

  /** gcd: the Euclidean loop on two u32 values. */
  method Gcd(a: u32, b: u32) returns (r: u32)
    ensures r == GcdF(a, b)
    ensures b == 0 ==> r == a
    ensures a > 0 || b > 0 ==> Divides(r, a) && Divides(r, b)
    ensures a > 0 || b > 0 ==> forall d: nat :: Divides(d, a) && Divides(d, b) ==> d <= r
  {
    var x := a;
    var y := b;
    while y != 0
      invariant GcdF(x, y) == GcdF(a, b)
      decreases y
    {
      var remainder := x % y;
      x := y;
      y := remainder;
    }
    r := x;
    GcdIsGreatest(a, b);
    if a > 0 || b > 0 {
      GcdIsLargest(a, b);
    }
  }

  /* ---------------------------------------------------------------------------------------- */
  /* Adaptive block size                                                                       */

  /** A block size s divides both sides and leaves more than `req` blocks on the frame. */
  predicate Fits(req: nat, w: nat, h: nat, s: nat)
  {
    s > 0 && w % s == 0 && h % s == 0 && (w * h) / (s * s) > req
  }

  /** The first fitting size counting down from s; 0 when none fits. */
  function SearchDown(req: nat, w: nat, h: nat, s: nat): nat
    decreases s
  {
    if s == 0 then 0 else if Fits(req, w, h, s) then s else SearchDown(req, w, h, s - 1)
  }

  /** What max_pixel_size's loop stops at before the cast to u8. */
  function BlockSizeFor(req: nat, w: nat, h: nat): nat
  {
    SearchDown(req, w, h, GcdF(w, h))
  }

  /** What max_pixel_size yields: a panic when w*h overflows u32 or when the loop counts down to
      a zero divisor, which happens exactly when w*h <= req; otherwise the size cast to u8. */
  function MaxPixel(req: nat, w: nat, h: nat): Result<u8>
  {
    if w * h >= U32_LIMIT || w * h <= req then Err(Panic)
    else Ok(BlockSizeFor(req, w, h) % U8_LIMIT)
  }

  lemma {:induction false} SearchDownProps(req: nat, w: nat, h: nat, s: nat)
    ensures SearchDown(req, w, h, s) <= s
    ensures SearchDown(req, w, h, s) > 0 ==> Fits(req, w, h, SearchDown(req, w, h, s))
    ensures forall t: nat | SearchDown(req, w, h, s) < t <= s :: !Fits(req, w, h, t)
  {
    if s > 0 && !Fits(req, w, h, s) {
      SearchDownProps(req, w, h, s - 1);
    }
  }

  lemma PositiveFactors(w: nat, h: nat, req: nat)
    requires w * h > req
    ensures w > 0 && h > 0
  {
  }

  /** The block size is the largest size that fits, among all sizes and not only those below
      gcd(w, h); it exists once the frame has more than `req` pixels. */
  lemma BlockSizeIsLargest(req: nat, w: nat, h: nat)
    requires w * h > req
    ensures Fits(req, w, h, BlockSizeFor(req, w, h))
    ensures BlockSizeFor(req, w, h) <= GcdF(w, h)
    ensures forall s: nat :: Fits(req, w, h, s) ==> s <= BlockSizeFor(req, w, h)
  {
    PositiveFactors(w, h, req);
    GcdIsGreatest(w, h);
    var g := GcdF(w, h);
    SearchDownProps(req, w, h, g);
    assert Fits(req, w, h, 1) by {
      MulDivCancel(w * h, 1);
    }
    forall s: nat | Fits(req, w, h, s)
      ensures s <= BlockSizeFor(req, w, h)
    {
      assert Divides(s, w) && Divides(s, h);
      DividesLe(s, g);
    }
  }

  /** max_pixel_size: from gcd(w, h) downwards to the first size that fits. */
  method MaxPixelSize(req: u32, w: u32, h: u32) returns (r: Result<u8>)
    ensures r == MaxPixel(req, w, h)
  {
    var g := Gcd(w, h);
    var area: nat := w * h;
    if area > 0 {
      PositiveFactors(w, h, 0);
    }
    var ps: nat := g;
    while true
      invariant ps <= g
      invariant SearchDown(req, w, h, ps) == BlockSizeFor(req, w, h)
      invariant area >= U32_LIMIT ==> ps == g
      decreases ps
    {
      if ps == 0 {
        // `width % pixel_size` with pixel_size == 0
        NoBlockSize(req, w, h);
        return Err(Panic);
      }
      if w % ps == 0 && h % ps == 0 {
        if area >= U32_LIMIT {
          return Err(Panic);
        }
        if area / (ps * ps) > req {
          break;
        }
      }
      ps := ps - 1;
    }
    assert Fits(req, w, h, ps);
    DivLe(area, ps * ps);
    r := Ok(ps % U8_LIMIT);
  }

  /** The search only reaches zero when no size fits (so that the product is at most `req`),
      and then the u32 product does not overflow. */
  lemma NoBlockSize(req: nat, w: nat, h: nat)
    requires BlockSizeFor(req, w, h) == 0
    ensures w * h <= req
  {
    if w * h > req {
      BlockSizeIsLargest(req, w, h);
    }
  }

  /** The header block size encode computes at 1280x720 for its 328-bit header. */
  lemma EncodeHeaderBlockSize()
    ensures BlockSizeFor(328, 1280, 720) == 40
    ensures MaxPixel(328, 1280, 720) == Ok(40)
  {
    assert GcdF(1280, 720) == 80;
    BlockSizeIsLargest(328, 1280, 720);
    GcdIsGreatest(1280, 720);
    var b := BlockSizeFor(328, 1280, 720);
    assert Fits(328, 1280, 720, 40);
    assert !Fits(328, 1280, 720, 80);
    DivisorsOfEighty(b);
  }

  /** The header block size decode computes at 1280x720 for HEAD_LENGHT = 844: 20, not the 40
      encode painted the header with. */
  lemma DecodeHeaderBlockSize()
    ensures BlockSizeFor(HEAD_LENGHT, 1280, 720) == 20
    ensures MaxPixel(HEAD_LENGHT, 1280, 720) == Ok(20)
  {
    assert GcdF(1280, 720) == 80;
    BlockSizeIsLargest(HEAD_LENGHT, 1280, 720);
    GcdIsGreatest(1280, 720);
    var c := BlockSizeFor(HEAD_LENGHT, 1280, 720);
    assert Fits(HEAD_LENGHT, 1280, 720, 20);
    assert !Fits(HEAD_LENGHT, 1280, 720, 40);
    assert !Fits(HEAD_LENGHT, 1280, 720, 80);
    if c > 20 {
      DivisorsOfEighty(c);
    }
  }

  /** The divisors of 80 above 20. */
  lemma DivisorsOfEighty(u: nat)
    requires u > 20 && Divides(u, 80)
    ensures u == 40 || u == 80
  {
    var k := 80 / u;
    DivMulExact(80, u);
    if k >= 4 {
      MulMono(4, k, u);
    }
  }

  /* ---------------------------------------------------------------------------------------- */
  /* Bytes per frame and frame counts                                                          */

  /** get_bytes_per_frame: pixels times the mode's numerator, shared among blocks of s*s
      pixels, then divided by the denominator; each division must be exact. Every u32
      operation that panics is an error as well. */
  function GetBytesPerFrame(tp: u32, s: u32, ratio: (u32, u32)): (r: Result<u32>)
    ensures r.Ok? ==> r.value * ratio.1 * (s * s) == tp * ratio.0
  {
    var prod := tp * ratio.0;
    var sq := s * s;
    if prod >= U32_LIMIT || sq >= U32_LIMIT || s == 0 then Err(Panic)
    else if prod % sq != 0 then Err(Incompatible)
    else if ratio.1 == 0 then Err(Panic)
    else
      var blocks := prod / sq;
      if blocks % ratio.1 != 0 then Err(Incompatible)
      else
        ExactQuotient(prod, sq, ratio.1);
        Ok(blocks / ratio.1)
  }

  lemma ExactQuotient(n: nat, a: nat, b: nat)
    requires a > 0 && b > 0 && n % a == 0 && (n / a) % b == 0
    ensures (n / a) / b * b * a == n
    ensures (n / a) / b <= n
  {
    var q := n / a;
    DivMulExact(n, a);
    DivMulExact(q, b);
    DivLe(n, a);
    DivLe(q, b);
  }

  /** The errors of get_bytes_per_frame when no u32 operation overflows: exactly the inexact
      divisions. */
  lemma BytesPerFrameDivisions(tp: u32, s: u32, ratio: (u32, u32))
    requires tp * ratio.0 < U32_LIMIT && 0 < s && s * s < U32_LIMIT && ratio.1 > 0
    ensures GetBytesPerFrame(tp, s, ratio).Ok? <==>
      (tp * ratio.0) % (s * s) == 0 && ((tp * ratio.0) / (s * s)) % ratio.1 == 0
    ensures GetBytesPerFrame(tp, s, ratio).Err? ==> GetBytesPerFrame(tp, s, ratio).error == Incompatible
    ensures GetBytesPerFrame(tp, s, ratio).Ok? ==>
      GetBytesPerFrame(tp, s, ratio).value == (tp * ratio.0) / (s * s * ratio.1)
  {
    if GetBytesPerFrame(tp, s, ratio).Ok? {
      var v := GetBytesPerFrame(tp, s, ratio).value;
      assert v * (s * s * ratio.1) == tp * ratio.0;
      QuotientOfProduct(v, s * s * ratio.1);
    }
  }

  lemma QuotientOfProduct(v: nat, m: nat)
    requires m > 0
    ensures (v * m) / m == v
  {
    MulDivCancel(v, m);
  }

  /** `(file_size as f64 / bytes_per_frame as f64).ceil() as usize`: the ceiling of the
      quotient; dividing by zero gives infinity, which saturates to usize::MAX, or NaN when the
      file is empty too, which converts to 0. */
  function FramesCount(fs: nat, bpf: nat): nat
  {
    if bpf == 0 then (if fs == 0 then 0 else USIZE_MAX)
    else (fs + bpf - 1) / bpf
  }

  /** With bytes on each frame, the frame count is the least count whose frames hold the file. */
  lemma FramesCountIsCeiling(fs: nat, bpf: nat)
    requires bpf > 0
    ensures FramesCount(fs, bpf) * bpf >= fs
    ensures FramesCount(fs, bpf) > 0 ==> (FramesCount(fs, bpf) - 1) * bpf < fs
    ensures FramesCount(fs, bpf) == 0 <==> fs == 0
    ensures FramesCount(fs, bpf) <= fs
  {
    var f := FramesCount(fs, bpf);
    var n := fs + bpf - 1;
    assert n == f * bpf + n % bpf;
    assert (f - 1) * bpf == f * bpf - bpf;
    if f > fs {
      MulMono(fs + 1, f, bpf);
      MulMono(1, bpf, fs);
    }
    if fs == 0 {
      DivUnique(n, bpf, 0, n);
    }
  }

  /** `bytes_per_frame * frames as u32 - file_size as u32`: both casts keep the low 32 bits, and
      an overflowing product or a negative difference panics. */
  function UnusedBytesU32(bpf: u32, frames: nat, fs: nat): Result<u32>
  {
    var prod := bpf * (frames % U32_LIMIT);
    var size := fs % U32_LIMIT;
    if prod >= U32_LIMIT || prod < size then Err(Panic) else Ok(prod - size)
  }

  /** The unused bytes are the padding of the last frame: fewer than a frame's worth, and
      computed without panic whenever the frames fit within u32. */
  lemma UnusedBytesArePadding(bpf: u32, fs: nat)
    requires bpf > 0 && fs < U32_LIMIT
    ensures var f := FramesCount(fs, bpf);
      UnusedBytesU32(bpf, f, fs).Ok? <==> bpf * f < U32_LIMIT
    ensures var f := FramesCount(fs, bpf);
      UnusedBytesU32(bpf, f, fs).Ok? ==>
        UnusedBytesU32(bpf, f, fs).value == bpf * f - fs && UnusedBytesU32(bpf, f, fs).value < bpf
    ensures fs + bpf <= U32_LIMIT ==> UnusedBytesU32(bpf, FramesCount(fs, bpf), fs).Ok?
  {
    FramesCountIsCeiling(fs, bpf);
    var f := FramesCount(fs, bpf);
    assert f % U32_LIMIT == f;
    assert bpf * f == (f - 1) * bpf + bpf || f == 0;
  }

  /* ---------------------------------------------------------------------------------------- */
  /* VideoInfo                                                                                 */

  /** The fields of a VideoInfo. */
  datatype Fields = Fields(
    videoType: VideoType,
    checksum: Option<string>,
    filename: Option<string>,
    path: Option<string>,
    pixelSize: u8,
    unusedBytes: Option<u32>,
    totalFrames: Option<nat>,
    fileSize: Option<u64>,
    fps: Option<u32>,
    width: Option<u32>,
    height: Option<u32>)

  /** total_pixels: width times height, both needed. */
  function TotalPixels(s: Fields): (r: Result<u32>)
    ensures r.Ok? <==> s.width.Some? && s.height.Some? && s.width.value * s.height.value < U32_LIMIT
    ensures r.Ok? ==> r.value == s.width.value * s.height.value
    ensures r.Err? && s.width.Some? && s.height.Some? ==> r.error == Panic
  {
    if s.width.None? || s.height.None? then Err(Missing)
    else if s.width.value * s.height.value >= U32_LIMIT then Err(Panic)
    else Ok(s.width.value * s.height.value)
  }

  /** bytes_per_frame: get_bytes_per_frame on the total pixels, the block size and the mode's
      ratio. */
  function BytesPerFrame(s: Fields): (r: Result<u32>)
    ensures r.Ok? ==> (TotalPixels(s).Ok?
      && r.value * Ratio(s.videoType).1 * (s.pixelSize * s.pixelSize) == TotalPixels(s).value * Ratio(s.videoType).0)
  {
    match TotalPixels(s)
    case Err(e) => Err(e)
    case Ok(tp) => GetBytesPerFrame(tp, s.pixelSize, Ratio(s.videoType))
  }

  /** One call of checksum(): the cached digest, or the digest of the file at the path, which
      is cached. `digest` is what sha256::try_digest gives for that file. */
  function ChecksumStep(s: Fields, digest: Option<string>): (Result<string>, Fields)
  {
    if s.checksum.Some? then (Ok(s.checksum.value), s)
    else if s.path.None? then (Err(Missing), s)
    else if digest.None? then (Err(ChecksumFailed), s)
    else (Ok(digest.value), s.(checksum := Some(digest.value)))
  }

  /** One call of filename(): the cached name, or the last component of the path, which is
      cached. `baseName` is what `file_name()` and `to_str()` give for the path. */
  function FilenameStep(s: Fields, baseName: Option<string>): (Result<string>, Fields)
  {
    if s.filename.Some? then (Ok(s.filename.value), s)
    else if s.path.None? || baseName.None? then (Err(Missing), s)
    else (Ok(baseName.value), s.(filename := Some(baseName.value)))
  }

  /** One call of file_size(): the cached size, or the size on disk of the file at the path,
      which is cached. `sizeOnDisk` is None when the file cannot be opened or examined. */
  function FileSizeStep(s: Fields, sizeOnDisk: Option<u64>): (Result<u64>, Fields)
  {
    if s.fileSize.Some? then (Ok(s.fileSize.value), s)
    else if s.path.None? then (Err(Missing), s)
    else if sizeOnDisk.None? then (Err(FileAccess), s)
    else (Ok(sizeOnDisk.value), s.(fileSize := Some(sizeOnDisk.value)))
  }

  /** One call of total_frames(): the cached count, or the ceiling of file size over bytes per
      frame (file_size() runs first and may fill its own cache). */
  function TotalFramesStep(s: Fields, sizeOnDisk: Option<u64>): (Result<nat>, Fields)
  {
    if s.totalFrames.Some? then (Ok(s.totalFrames.value), s)
    else
      var (fs, s1) := FileSizeStep(s, sizeOnDisk);
      if fs.Err? then (Err(fs.error), s1)
      else
        var bpf := BytesPerFrame(s1);
        if bpf.Err? then (Err(bpf.error), s1)
        else
          var f := FramesCount(fs.value, bpf.value);
          (Ok(f), s1.(totalFrames := Some(f)))
  }

  /** One call of unused_bytes(): the cached count, or the padding of the last frame from
      bytes_per_frame(), total_frames() and file_size(), evaluated in that order. */
  function UnusedBytesStep(s: Fields, sizeOnDisk: Option<u64>): (Result<u32>, Fields)
  {
    if s.unusedBytes.Some? then (Ok(s.unusedBytes.value), s)
    else
      var bpf := BytesPerFrame(s);
      if bpf.Err? then (Err(bpf.error), s)
      else
        var (tf, s1) := TotalFramesStep(s, sizeOnDisk);
        if tf.Err? then (Err(tf.error), s1)
        else
          var (fs, s2) := FileSizeStep(s1, sizeOnDisk);
          if fs.Err? then (Err(fs.error), s2)
          else
            var u := UnusedBytesU32(bpf.value, tf.value, fs.value);
            if u.Err? then (Err(u.error), s2)
            else (Ok(u.value), s2.(unusedBytes := Some(u.value)))
  }

  /** The fields no accessor ever writes. */
  predicate SameSettings(a: Fields, b: Fields)
  {
    a.videoType == b.videoType && a.path == b.path && a.pixelSize == b.pixelSize
    && a.fps == b.fps && a.width == b.width && a.height == b.height
  }

  /** Every accessor, once its cache is filled, returns the cached value and changes nothing. */
  lemma CachedAccessorsAreStable(s: Fields, d: Option<string>, n: Option<string>, z: Option<u64>)
    ensures s.checksum.Some? ==> ChecksumStep(s, d) == (Ok(s.checksum.value), s)
    ensures s.filename.Some? ==> FilenameStep(s, n) == (Ok(s.filename.value), s)
    ensures s.fileSize.Some? ==> FileSizeStep(s, z) == (Ok(s.fileSize.value), s)
    ensures s.totalFrames.Some? ==> TotalFramesStep(s, z) == (Ok(s.totalFrames.value), s)
    ensures s.unusedBytes.Some? ==> UnusedBytesStep(s, z) == (Ok(s.unusedBytes.value), s)
  {
  }

  /** A successful accessor fills its cache, so a second call, whatever the file system says by
      then, returns the same value and leaves the fields as they are. */
  lemma AccessorsMemoise(s: Fields, d: Option<string>, d': Option<string>, n: Option<string>,
                         n': Option<string>, z: Option<u64>, z': Option<u64>)
    ensures ChecksumStep(s, d).0.Ok? ==>
      ChecksumStep(ChecksumStep(s, d).1, d') == ChecksumStep(s, d)
    ensures FilenameStep(s, n).0.Ok? ==>
      FilenameStep(FilenameStep(s, n).1, n') == FilenameStep(s, n)
    ensures FileSizeStep(s, z).0.Ok? ==>
      FileSizeStep(FileSizeStep(s, z).1, z') == FileSizeStep(s, z)
  {
  }

  /** The same for the two derived counts. */
  lemma DerivedAccessorsMemoise(s: Fields, z: Option<u64>, z': Option<u64>)
    ensures TotalFramesStep(s, z).0.Ok? ==>
      TotalFramesStep(TotalFramesStep(s, z).1, z') == TotalFramesStep(s, z)
    ensures UnusedBytesStep(s, z).0.Ok? ==>
      UnusedBytesStep(UnusedBytesStep(s, z).1, z') == UnusedBytesStep(s, z)
  {
  }

  /** No accessor touches the mode, path, block size, fps or dimensions. */
  lemma AccessorsKeepSettings(s: Fields, d: Option<string>, n: Option<string>, z: Option<u64>)
    ensures SameSettings(s, ChecksumStep(s, d).1)
    ensures SameSettings(s, FilenameStep(s, n).1)
    ensures SameSettings(s, FileSizeStep(s, z).1)
  {
  }

  /** Nor do the two derived counts. */
  lemma DerivedAccessorsKeepSettings(s: Fields, z: Option<u64>)
    ensures SameSettings(s, TotalFramesStep(s, z).1)
    ensures SameSettings(s, UnusedBytesStep(s, z).1)
  {
  }

  /** On a fresh VideoInfo for a file of fewer than 2^32 bytes, total_frames() is the ceiling of
      size over bytes per frame and unused_bytes() the last frame's padding. */
  lemma FreshInfoPadding(s: Fields, z: u64)
    requires s.totalFrames.None? && s.unusedBytes.None? && s.fileSize.None? && s.path.Some?
    requires BytesPerFrame(s).Ok? && BytesPerFrame(s).value > 0
    requires z + BytesPerFrame(s).value <= U32_LIMIT
    ensures var bpf := BytesPerFrame(s).value;
      var (tf, _) := TotalFramesStep(s, Some(z));
      tf == Ok(FramesCount(z, bpf)) && tf.value * bpf >= z && (tf.value > 0 ==> (tf.value - 1) * bpf < z)
    ensures var bpf := BytesPerFrame(s).value;
      var (u, s2) := UnusedBytesStep(s, Some(z));
      u.Ok? && u.value == bpf * FramesCount(z, bpf) - z && u.value < bpf
      && s2.fileSize == Some(z) && s2.totalFrames == Some(FramesCount(z, bpf)) && s2.unusedBytes == Some(u.value)
  {
    var bpf := BytesPerFrame(s).value;
    FramesCountIsCeiling(z, bpf);
    UnusedBytesArePadding(bpf, z);
    var s1 := s.(fileSize := Some(z));
    assert BytesPerFrame(s1) == BytesPerFrame(s);
  }

  /** VideoInfo: the record main.rs threads through a run; the five accessors below fill their
      `Option` fields on first use. */
  class VideoInfo {
    var videoType: VideoType
    var checksum: Option<string>
    var filename: Option<string>
    var path: Option<string>
    var pixelSize: u8
    var unusedBytes: Option<u32>
    var totalFrames: Option<nat>
    var fileSize: Option<u64>
    var fps: Option<u32>
    var width: Option<u32>
    var height: Option<u32>

    function State(): Fields
      reads this
    {
      Fields(videoType, checksum, filename, path, pixelSize, unusedBytes, totalFrames, fileSize,
             fps, width, height)
    }

    /** VideoInfo::new: the settings of an encoding run, nothing cached yet. */
    constructor New(vt: VideoType, p: string, ps: u8, f: u32, w: u32, h: u32)
      ensures State() == Fields(vt, None, None, Some(p), ps, None, None, None, Some(f), Some(w), Some(h))
    {
      videoType := vt;
      checksum := None;
      filename := None;
      path := Some(p);
      pixelSize := ps;
      unusedBytes := None;
      totalFrames := None;
      fileSize := None;
      fps := Some(f);
      width := Some(w);
      height := Some(h);
    }

    /** VideoInfo::from_parse: the facts read back from a video, no path and no dimensions. */
    constructor FromParse(vt: VideoType, sum: string, name: string, ps: u8, unused: u32, frames: nat)
      ensures State() == Fields(vt, Some(sum), Some(name), None, ps, Some(unused), Some(frames), None, None, None, None)
    {
      videoType := vt;
      checksum := Some(sum);
      filename := Some(name);
      path := None;
      pixelSize := ps;
      unusedBytes := Some(unused);
      totalFrames := Some(frames);
      fileSize := None;
      fps := None;
      width := None;
      height := None;
    }

    method Checksum(digest: Option<string>) returns (r: Result<string>)
      modifies this
      ensures (r, State()) == ChecksumStep(old(State()), digest)
    {
      match checksum {
        case Some(v) => return Ok(v);
        case None =>
          if path.None? {
            return Err(Missing);
          }
          if digest.None? {
            return Err(ChecksumFailed);
          }
          checksum := Some(digest.value);
          return Ok(digest.value);
      }
    }

    method Filename(baseName: Option<string>) returns (r: Result<string>)
      modifies this
      ensures (r, State()) == FilenameStep(old(State()), baseName)
    {
      match filename {
        case Some(v) => return Ok(v);
        case None =>
          if path.None? || baseName.None? {
            return Err(Missing);
          }
          filename := Some(baseName.value);
          return Ok(baseName.value);
      }
    }

    method FileSize(sizeOnDisk: Option<u64>) returns (r: Result<u64>)
      modifies this
      ensures (r, State()) == FileSizeStep(old(State()), sizeOnDisk)
    {
      match fileSize {
        case Some(v) => return Ok(v);
        case None =>
          if path.None? {
            return Err(Missing);
          }
          if sizeOnDisk.None? {
            return Err(FileAccess);
          }
          fileSize := Some(sizeOnDisk.value);
          return Ok(sizeOnDisk.value);
      }
    }

    method TotalFrames(sizeOnDisk: Option<u64>) returns (r: Result<nat>)
      modifies this
      ensures (r, State()) == TotalFramesStep(old(State()), sizeOnDisk)
    {
      match totalFrames {
        case Some(v) => return Ok(v);
        case None =>
          var fs := FileSize(sizeOnDisk);
          if fs.Err? {
            return Err(fs.error);
          }
          var bpf := BytesPerFrame(State());
          if bpf.Err? {
            return Err(bpf.error);
          }
          var f := FramesCount(fs.value, bpf.value);
          totalFrames := Some(f);
          return Ok(f);
      }
    }

    method UnusedBytes(sizeOnDisk: Option<u64>) returns (r: Result<u32>)
      modifies this
      ensures (r, State()) == UnusedBytesStep(old(State()), sizeOnDisk)
    {
      match unusedBytes {
        case Some(v) => return Ok(v);
        case None =>
          var bpf := BytesPerFrame(State());
          if bpf.Err? {
            return Err(bpf.error);
          }
          var tf := TotalFrames(sizeOnDisk);
          if tf.Err? {
            return Err(tf.error);
          }
          var fs := FileSize(sizeOnDisk);
          if fs.Err? {
            return Err(fs.error);
          }
          var u := UnusedBytesU32(bpf.value, tf.value, fs.value);
          if u.Err? {
            return Err(u.error);
          }
          unusedBytes := Some(u.value);
          return Ok(u.value);
      }
    }
  }
}
