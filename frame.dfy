/** The raster of src/frame.rs: a frame of width x height pixels cut into square blocks of
    pixel_size pixels, each block painted in the colour of one data bit. */
module Raster {
  import opened Types
  import opened Arith

  /** A colour as the encoder chooses it. */
  datatype Pixel = Pixel(r: u8, g: u8, b: u8)

  /** A pixel of an OpenCV 8-bit three-channel image: blue, green, red. */
  datatype Bgr = Bgr(c0: u8, c1: u8, c2: u8)

  /** `bgr[0] = pixel.b; bgr[1] = pixel.g; bgr[2] = pixel.r`. */
  function BgrOf(p: Pixel): (c: Bgr)
    ensures c.c0 == p.b && c.c1 == p.g && c.c2 == p.r
  {
    Bgr(p.b, p.g, p.r)
  }

  /** An OpenCV Mat::new_rows_cols takes its sizes as i32. */
  const I32_LIMIT: nat := 0x8000_0000

  /* ---------------------------------------------------------------------------------------- */
  /* Blocks                                                                                   */

  /** Pixel (row y, column x) lies in the block at block column i and block row j. */
  predicate InBlock(y: nat, x: nat, i: nat, j: nat, s: nat)
  {
    j * s <= y < j * s + s && i * s <= x < i * s + s
  }

  /** The number of the block a pixel lies in, counting blocks row by row. */
  function Owner(y: nat, x: nat, s: nat, cols: nat): nat
    requires s > 0
  {
    (y / s) * cols + x / s
  }

  /** The pixel lies in one of the first n blocks of a grid of cols x rows blocks (pixels right
      of or below the grid belong to no block). */
  predicate Covered(y: nat, x: nat, s: nat, cols: nat, rows: nat, n: nat)
    requires s > 0
  {
    x / s < cols && y / s < rows && Owner(y, x, s, cols) < n
  }

  /** The colour of pixel (y, x) once the first |pixels| blocks are painted, block k in
      pixels[k]; `o` is the colour it had before. */
  function Painted(o: Bgr, y: nat, x: nat, pixels: seq<Pixel>, s: nat, cols: nat, rows: nat): Bgr
    requires s > 0
  {
    if Covered(y, x, s, cols, rows, |pixels|) then BgrOf(pixels[Owner(y, x, s, cols)]) else o
  }

  /** A pixel lies in block (i, j) exactly when i and j are its coordinates divided by s. */
  lemma BlockOfPoint(y: nat, x: nat, i: nat, j: nat, s: nat)
    requires s > 0
    ensures InBlock(y, x, i, j, s) <==> x / s == i && y / s == j
  {
    if InBlock(y, x, i, j, s) {
      DivUnique(y, s, j, y - j * s);
      DivUnique(x, s, i, x - i * s);
    }
    if x / s == i && y / s == j {
      assert y == j * s + y % s;
      assert x == i * s + x % s;
    }
  }

  /** Block k of a grid with cols columns sits at block column k % cols and block row k / cols,
      inside the grid when k < rows * cols. */
  lemma BlockPosition(k: nat, cols: nat, rows: nat)
    requires k < rows * cols
    ensures cols > 0 && k / cols < rows && k % cols < cols
    ensures (k / cols) * cols + k % cols == k
  {
    if k / cols >= rows {
      MulMono(rows, k / cols, cols);
    }
  }

  /** The block number of pixel (y, x) is k exactly when the pixel lies in block k's square. */
  lemma OwnerIsBlock(y: nat, x: nat, k: nat, s: nat, cols: nat, rows: nat)
    requires s > 0 && k < rows * cols
    ensures InBlock(y, x, k % cols, k / cols, s) <==> Covered(y, x, s, cols, rows, k + 1) && Owner(y, x, s, cols) == k
  {
    BlockPosition(k, cols, rows);
    BlockOfPoint(y, x, k % cols, k / cols, s);
    if x / s < cols && Owner(y, x, s, cols) == k {
      DivUnique(k, cols, y / s, x / s);
    }
  }

  /** Painting block k on top of the first k blocks gives the first k + 1 blocks. */
  lemma PaintedStep(o: Bgr, y: nat, x: nat, pixels: seq<Pixel>, k: nat, s: nat, cols: nat, rows: nat)
    requires s > 0 && k < |pixels| && k < rows * cols
    ensures Painted(o, y, x, pixels[..k + 1], s, cols, rows) ==
      if InBlock(y, x, k % cols, k / cols, s) then BgrOf(pixels[k]) else Painted(o, y, x, pixels[..k], s, cols, rows)
  {
    OwnerIsBlock(y, x, k, s, cols, rows);
  }

  /** The point decode_black_and_white samples in block k, its centre, lies in block k: after
      painting, it shows block k's colour. */
  lemma CentreShowsBlock(o: Bgr, k: nat, pixels: seq<Pixel>, s: nat, cols: nat, rows: nat)
    requires s > 0 && k < |pixels| && k < rows * cols
    ensures InBlock((k / cols) * s + s / 2, (k % cols) * s + s / 2, k % cols, k / cols, s)
    ensures Painted(o, (k / cols) * s + s / 2, (k % cols) * s + s / 2, pixels, s, cols, rows) == BgrOf(pixels[k])
  {
    var y := (k / cols) * s + s / 2;
    var x := (k % cols) * s + s / 2;
    OwnerIsBlock(y, x, k, s, cols, rows);
  }

  /** The block positions compute_colors lists have their bottom-right corner inside a frame of
      cols * s by rows * s pixels. */
  lemma BlockInFrame(k: nat, s: nat, cols: nat, rows: nat)
    requires k < rows * cols
    ensures (k % cols + 1) * s <= cols * s && (k / cols + 1) * s <= rows * s
  {
    BlockPosition(k, cols, rows);
    MulMono(k % cols + 1, cols, s);
    MulMono(k / cols + 1, rows, s);
  }

  /* ---------------------------------------------------------------------------------------- */
  /* Frame::new                                                                               */

  /** What Frame::new accepts: a block size that divides (no division by zero), a block count
      that fits a u32, no more bits than blocks (the length cast to u32 first), and sizes an
      i32 holds so that the Mat can be allocated. */
  function FrameCheck(n: nat, s: nat, w: nat, h: nat): Result<()>
  {
    if s == 0 then Err(Panic)
    else if (w / s) * (h / s) >= U32_LIMIT then Err(Panic)
    else if n % U32_LIMIT > (w / s) * (h / s) then Err(TooManyBits)
    else if h >= I32_LIMIT || w >= I32_LIMIT then Err(Panic)
    else Ok(())
  }

  /** For a frame whose pixel count fits a u32 and a length below 2^32, Frame::new refuses
      exactly a zero block size and more bits than blocks. */
  lemma FrameCheckAccepts(n: nat, s: nat, w: nat, h: nat)
    requires n < U32_LIMIT && w < I32_LIMIT && h < I32_LIMIT && w * h < U32_LIMIT
    ensures FrameCheck(n, s, w, h).Ok? <==> s > 0 && n <= (w / s) * (h / s)
    ensures FrameCheck(n, s, w, h).Err? && s > 0 ==> FrameCheck(n, s, w, h).error == TooManyBits
  {
    if s > 0 {
      DivLe(w, s);
      DivLe(h, s);
      MulMono(w / s, w, h / s);
      MulMono(h / s, h, w);
    }
  }

  class Frame {
    var image: array2<Bgr>
    var data: seq<bool>
    var pixelSize: u32
    var width: u32
    var height: u32

    /** The image has height rows and width columns, and the block size divides. */
    predicate Valid()
      reads this
    {
      pixelSize > 0 && image.Length0 == height && image.Length1 == width
      && height < I32_LIMIT && width < I32_LIMIT
    }

    function Cols(): nat
      reads this
      requires Valid()
    {
      width / pixelSize
    }

    function Rows(): nat
      reads this
      requires Valid()
    {
      height / pixelSize
    }

    /** The frame Frame::new builds once its checks pass; the Mat it allocates is not
        initialised, so `fill` stands for whatever the memory held. */
    constructor (bits: seq<bool>, s: u8, w: u32, h: u32, fill: Bgr)
      requires s > 0 && w < I32_LIMIT && h < I32_LIMIT
      ensures Valid() && fresh(image)
      ensures data == bits && pixelSize == s && width == w && height == h
      ensures forall y, x | 0 <= y < h && 0 <= x < w :: image[y, x] == fill
    {
      image := new Bgr[h, w]((_, _) => fill);
      data := bits;
      pixelSize := s;
      width := w;
      height := h;
    }

    /** Paints the pixel_size x pixel_size square of block column i, block row j. */
    method PaintBlock(i: nat, j: nat, c: Bgr)
      requires Valid() && (i + 1) * pixelSize <= width && (j + 1) * pixelSize <= height
      modifies image
      ensures forall y, x | 0 <= y < image.Length0 && 0 <= x < image.Length1 ::
        image[y, x] == if InBlock(y, x, i, j, pixelSize) then c else old(image[y, x])
    {
      var s: nat := pixelSize;
      var top := j * s;
      var left := i * s;
      assert top + s == (j + 1) * s && left + s == (i + 1) * s;
      var y := top;
      while y < top + s
        invariant top <= y <= top + s
        invariant forall yy, xx | 0 <= yy < image.Length0 && 0 <= xx < image.Length1 ::
          image[yy, xx] == if top <= yy < y && left <= xx < left + s then c else old(image[yy, xx])
      {
        var x := left;
        while x < left + s
          invariant left <= x <= left + s
          invariant forall yy, xx | 0 <= yy < image.Length0 && 0 <= xx < image.Length1 ::
            image[yy, xx] ==
              if (top <= yy < y && left <= xx < left + s) || (yy == y && left <= xx < x) then c
              else old(image[yy, xx])
        {
          image[y, x] := c;
          x := x + 1;
        }
        y := y + 1;
      }
    }

    /** compute_colors: refuses more bits than `bitsPerPage`, lists the blocks row by row, and
        paints block k in the colour of pixels[k]; a colour beyond the last block is an index
        out of bounds, reached after the blocks before it are painted. `pixels` is what the
        colour scheme makes of the data bits. */
    method ComputeColors(pixels: seq<Pixel>, bitsPerPage: u32) returns (r: Result<()>)
      requires Valid()
      modifies image
      ensures |data| % U32_LIMIT > bitsPerPage ==> r == Err(TooManyBits) && unchanged(image)
      ensures |data| % U32_LIMIT <= bitsPerPage ==>
        r == (if |pixels| > Rows() * Cols() then Err(BlockIndex) else Ok(()))
        && forall y, x | 0 <= y < image.Length0 && 0 <= x < image.Length1 ::
          image[y, x] == Painted(old(image[y, x]), y, x, pixels[..Min(|pixels|, Rows() * Cols())],
                                 pixelSize, Cols(), Rows())
    {
      if |data| % U32_LIMIT > bitsPerPage {
        return Err(TooManyBits);
      }
      var cols := width / pixelSize;
      var rows := height / pixelSize;
      var coords := BlockCoords(cols, rows);
      var s: nat := pixelSize;
      DivLe(width, s);
      assert cols * s <= width && rows * s <= height by {
        assert width == cols * s + width % s;
        assert height == rows * s + height % s;
      }
      var k := 0;
      while k < |pixels|
        invariant k <= |pixels| && k <= |coords|
        invariant forall y, x | 0 <= y < image.Length0 && 0 <= x < image.Length1 ::
          image[y, x] == Painted(old(image[y, x]), y, x, pixels[..k], s, cols, rows)
      {
        if k >= |coords| {
          return Err(BlockIndex);
        }
        var (i, j) := coords[k];
        BlockInFrame(k, s, cols, rows);
        PaintBlock(i, j, BgrOf(pixels[k]));
        forall y, x | 0 <= y < image.Length0 && 0 <= x < image.Length1
          ensures image[y, x] == Painted(old(image[y, x]), y, x, pixels[..k + 1], s, cols, rows)
        {
          PaintedStep(old(image[y, x]), y, x, pixels, k, s, cols, rows);
        }
        k := k + 1;
      }
      assert pixels[..k] == pixels[..Min(|pixels|, rows * cols)];
      r := Ok(());
    }
  }

  /** Frame::new: the checks of FrameCheck, then a fresh frame. */
  method NewFrame(bits: seq<bool>, s: u8, w: u32, h: u32, fill: Bgr) returns (r: Result<Frame>)
    ensures r.Err? <==> FrameCheck(|bits|, s, w, h).Err?
    ensures r.Err? ==> r.error == FrameCheck(|bits|, s, w, h).error
    ensures r.Ok? ==> (fresh(r.value) && fresh(r.value.image) && r.value.Valid()
      && r.value.data == bits && r.value.pixelSize == s && r.value.width == w && r.value.height == h
      && forall y, x | 0 <= y < h && 0 <= x < w :: r.value.image[y, x] == fill)
  {
    if s == 0 {
      return Err(Panic);
    }
    var blocks := (w / s) * (h / s);
    if blocks >= U32_LIMIT {
      return Err(Panic);
    }
    if |bits| % U32_LIMIT > blocks {
      return Err(TooManyBits);
    }
    if h >= I32_LIMIT || w >= I32_LIMIT {
      return Err(Panic);
    }
    var f := new Frame(bits, s, w, h, fill);
    r := Ok(f);
  }

  /** The coordinate list of compute_colors: one (column, row) pair per block, row by row. */
  method BlockCoords(cols: u32, rows: u32) returns (coords: seq<(nat, nat)>)
    ensures |coords| == rows * cols
    ensures forall k | 0 <= k < |coords| :: coords[k] == (k % cols, k / cols)
  {
    coords := [];
    var j := 0;
    while j < rows
      invariant j <= rows && |coords| == j * cols
      invariant forall k | 0 <= k < |coords| :: coords[k] == (k % cols, k / cols)
    {
      var i := 0;
      while i < cols
        invariant i <= cols && |coords| == j * cols + i
        invariant forall k | 0 <= k < |coords| :: coords[k] == (k % cols, k / cols)
      {
        DivUnique(j * cols + i, cols, j, i);
        coords := coords + [(i, j)];
        i := i + 1;
      }
      assert j * cols + cols == (j + 1) * cols;
      j := j + 1;
    }
  }
}
