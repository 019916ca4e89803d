/** The header page of src/head.rs: a 328-bit record holding, in order, the file name in a
    256-bit field (right-aligned behind zero bits), the header block size in 8 bits, the count
    of unused bytes in 32 bits and the count of payload frames in 32 bits. */
module Head {
  import opened Types
  import opened Convert

  const HEAD_BITS: nat := 328
  const NAME_BITS: nat := 256

  /* ---------------------------------------------------------------------------------------- */
  /* Specification functions                                                                   */

  /** The number of bytes a character takes in UTF-8. */
  function Utf8Width(c: char): nat
  {
    if c as int < 0x80 then 1
    else if c as int < 0x800 then 2
    else if c as int < 0x1_0000 then 3
    else 4
  }

  /** `str::len`: the length of a string in UTF-8 bytes. */
  function Utf8Len(s: string): nat
  {
    if s == [] then 0 else Utf8Width(s[0]) + Utf8Len(s[1..])
  }

  predicate IsAscii(s: string)
  {
    forall i | 0 <= i < |s| :: s[i] as int < 0x80
  }

  predicate NoNul(s: string)
  {
    forall i | 0 <= i < |s| :: s[i] != '\0'
  }

  /** `c as u8`: the low eight bits of the code point. */
  function LowByte(c: char): u8
  {
    (c as int) % 0x100
  }

  function LowBytes(s: string): (r: seq<u8>)
    ensures |r| == |s|
  {
    seq(|s|, i requires 0 <= i < |s| => LowByte(s[i]))
  }

  /** The name field: zero bits for the bytes the name leaves free, then one byte per character. */
  function NameField(file: string): seq<bool>
    requires 8 * Utf8Len(file) <= NAME_BITS
  {
    Zeros(NAME_BITS - 8 * Utf8Len(file)) + BytesToBits(LowBytes(file))
  }

  /** The bits gen_headpage concatenates: the name field, then the three numerals. */
  function HeadBits(file: string, pixel: u32, remain: u32, pages: u32): seq<bool>
    requires 8 * Utf8Len(file) <= NAME_BITS
  {
    NameField(file) + FixedWidth(pixel, 8) + FixedWidth(remain, 32) + FixedWidth(pages, 32)
  }

  /** What gen_headpage yields: the padding count underflows for a name of more than 32 bytes,
      and the length assertion stops any other header that is not 328 bits long. */
  function HeadPage(file: string, pixel: u32, remain: u32, pages: u32): Result<seq<bool>>
  {
    if 8 * Utf8Len(file) > NAME_BITS then Err(NameTooLong)
    else if |HeadBits(file, pixel, remain, pages)| != HEAD_BITS then Err(HeaderLength)
    else Ok(HeadBits(file, pixel, remain, pages))
  }

  /** A field of at most 32 bits read as a u32. */
  function Word(bits: seq<bool>): (r: u32)
    requires |bits| <= 32
    ensures r == Value(bits)
  {
    FitsWord(bits);
    Value(bits)
  }

  /** What parse_headpage yields: the decoded name field and the three numbers, or a failure
      when fewer than 328 bits are given. */
  function ParseHead(raw: seq<bool>): Result<(string, u32, u32, u32)>
  {
    if |raw| < HEAD_BITS then Err(HeaderTooShort)
    else Ok((NameOf(raw[..256]), Word(raw[256..264]), Word(raw[264..296]), Word(raw[296..328])))
  }

  /* ---------------------------------------------------------------------------------------- */
  /* Lemmas                                                                                    */

  lemma FitsWord(bits: seq<bool>)
    requires |bits| <= 32
    ensures Value(bits) < U32_LIMIT
  {
    ValueBound(bits);
    Pow2Mono(|bits|, 32);
    Pow2Word();
  }

  lemma {:induction false} Utf8LenAtLeast(s: string)
    ensures Utf8Len(s) >= |s|
    ensures Utf8Len(s) == |s| <==> IsAscii(s)
  {
    if s != [] {
      Utf8LenAtLeast(s[1..]);
      if IsAscii(s[1..]) && s[0] as int < 0x80 {
        assert IsAscii(s) by {
          forall i | 0 <= i < |s| ensures s[i] as int < 0x80 {
            if i > 0 {
              assert s[i] == s[1..][i - 1];
            }
          }
        }
      }
      if IsAscii(s) {
        assert IsAscii(s[1..]) by {
          forall i | 0 <= i < |s| - 1 ensures s[1..][i] as int < 0x80 {
            assert s[1..][i] == s[i + 1];
          }
        }
      }
    }
  }

  lemma Split(x: seq<bool>, y: seq<bool>)
    ensures (x + y)[..|x|] == x && (x + y)[|x|..] == y
  {
  }

  /** Four fields of 256, 8, 32 and 32 bits laid end to end sit at the header's fixed offsets. */
  lemma Fields(a: seq<bool>, b: seq<bool>, c: seq<bool>, d: seq<bool>)
    requires |a| == 256 && |b| == 8 && |c| == 32 && |d| == 32
    ensures |a + b + c + d| == HEAD_BITS
    ensures (a + b + c + d)[..256] == a && (a + b + c + d)[256..264] == b
    ensures (a + b + c + d)[264..296] == c && (a + b + c + d)[296..328] == d
  {
    var h := a + b + c + d;
    assert h[..256] == a by { Split(a, b + c + d); assert h == a + (b + c + d); }
    assert h[256..264] == b by { assert h[256..264] == (a + b)[256..264]; }
    assert h[264..296] == c by { assert h[264..296] == (a + b + c)[264..296]; }
    assert h[296..328] == d by { Split(a + b + c, d); }
  }

  lemma LowBytesSnoc(s: string, i: nat)
    requires i < |s|
    ensures LowBytes(s[..i + 1]) == LowBytes(s[..i]) + [LowByte(s[i])]
  {
  }

  /** The length of the concatenated header, field by field. */
  lemma HeadBitsLength(file: string, pixel: u32, remain: u32, pages: u32)
    requires 8 * Utf8Len(file) <= NAME_BITS
    ensures |HeadBits(file, pixel, remain, pages)|
      == NAME_BITS - 8 * Utf8Len(file) + 8 * |file| + |FixedWidth(pixel, 8)| + 64
  {
    BytesToBitsLength(LowBytes(file));
    Pow2Word();
    FixedWidthProps(remain, 32);
    FixedWidthProps(pages, 32);
  }

  /** For an ASCII name the header is built exactly when the name has at most 32 characters
      and the block size fits in eight bits. */
  lemma HeadPageAscii(file: string, pixel: u32, remain: u32, pages: u32)
    requires IsAscii(file)
    ensures HeadPage(file, pixel, remain, pages).Ok? <==> |file| <= 32 && pixel < 256
    ensures HeadPage(file, pixel, remain, pages).Err? && |file| > 32
      ==> HeadPage(file, pixel, remain, pages).error == NameTooLong
  {
    Utf8LenAtLeast(file);
    Pow2Byte();
    FixedWidthProps(pixel, 8);
    if 8 * Utf8Len(file) <= NAME_BITS {
      HeadBitsLength(file, pixel, remain, pages);
    }
  }

  /** Every header that is built is 328 bits long; beyond ASCII, the 328-bit assertion can be
      met by a name of more bytes than characters together with a block size too wide for its
      eight-bit slot. */
  lemma HeadPageLength(file: string, pixel: u32, remain: u32, pages: u32)
    ensures HeadPage(file, pixel, remain, pages).Ok? ==> |HeadPage(file, pixel, remain, pages).value| == HEAD_BITS
    ensures HeadPage(file, pixel, remain, pages).Ok? <==>
      8 * Utf8Len(file) <= NAME_BITS && |FixedWidth(pixel, 8)| == 8 + 8 * (Utf8Len(file) - |file|)
  {
    if 8 * Utf8Len(file) <= NAME_BITS {
      HeadBitsLength(file, pixel, remain, pages);
    }
  }

  /** The one-character, two-byte name "\u00e9" with block size 0x8000, sixteen bits wide, passes
      the length assertion; the header then reads back as a two-character name and block size 0. */
  lemma WidePixelCompensated()
    ensures HeadPage("\U{E9}", 0x8000, 0, 0).Ok?
    ensures ParseHead(HeadPage("\U{E9}", 0x8000, 0, 0).value) == Ok(("\U{E9}\U{80}", 0, 0, 0))
  {
    var f := "\U{E9}";
    var bytes: seq<u8> := [0xE9, 0x80];
    var name := Zeros(240) + BytesToBits(bytes);
    var word := FixedWidth(0, 32);
    WideNameField();
    WideNameRead();
    WideField();
    assert |word| == 32 && Value(word) == 0 by {
      Pow2Word();
      FixedWidthProps(0, 32);
    }
    var h := HeadBits(f, 0x8000, 0, 0);
    assert h == name + Zeros(8) + word + word;
    assert Value(Zeros(8)) == 0 by {
      ValueZeros(8);
    }
    Fields(name, Zeros(8), word, word);
    ParseFields(h, "\U{E9}\U{80}", 0, 0, 0);
  }

  /** The name half of the example: the field of "\u00e9" followed by the block size's upper
      byte makes the name field. */
  lemma WideNameField()
    ensures Utf8Len("\U{E9}") == 2
    ensures NameField("\U{E9}") + BitsOf(0x80) == Zeros(240) + BytesToBits([0xE9, 0x80])
  {
    var f := "\U{E9}";
    assert f[1..] == [];
    assert LowBytes(f) == [0xE9];
    BytesToBitsAppend([0xE9], [0x80]);
    assert BytesToBits([0x80]) == BitsOf(0x80) + BytesToBits([]);
  }

  /** ... and that name field reads as two characters. */
  lemma WideNameRead()
    ensures |Zeros(240) + BytesToBits([0xE9, 0x80])| == 256
    ensures NameOf(Zeros(240) + BytesToBits([0xE9, 0x80])) == "\U{E9}\U{80}"
  {
    var bytes: seq<u8> := [0xE9, 0x80];
    BytesToBitsLength(bytes);
    NameOfPadded(30, bytes);
    assert bytes[..1] == [0xE9];
    assert [0xE9][..0] == [];
  }

  /** The block-size half of the example: 0x8000 is written as sixteen bits. */
  lemma WideField()
    ensures FixedWidth(0x8000, 8) == BitsOf(0x80) + Zeros(8)
  {
    Pow2Byte();
    assert Pow2(7) == 0x80;
    BinaryLengthExact(0x80, 8);
    BinaryShift(0x80, 8);
  }

  lemma {:induction false} BinaryLengthExact(x: nat, n: nat)
    requires n >= 1 && Pow2(n - 1) <= x < Pow2(n)
    ensures |Binary(x)| == n
  {
    if n > 1 {
      BinaryLengthExact(x / 2, n - 1);
    }
  }

  /** Shifting a positive number left by k appends k zero bits to its numeral. */
  lemma {:induction false} BinaryShift(x: nat, k: nat)
    requires x >= 1
    ensures Binary(x * Pow2(k)) == Binary(x) + Zeros(k)
  {
    if k > 0 {
      var y := x * Pow2(k - 1);
      assert x * Pow2(k) == 2 * y && y >= 1 by {
        MulPow2(x, k);
      }
      BinaryShift(x, k - 1);
      BinaryDouble(y);
      assert Zeros(k - 1) + [false] == Zeros(k);
      assert Binary(x) + Zeros(k - 1) + [false] == Binary(x) + Zeros(k);
    }
  }

  lemma MulPow2(x: nat, k: nat)
    requires x >= 1 && k > 0
    ensures x * Pow2(k) == 2 * (x * Pow2(k - 1)) && x * Pow2(k - 1) >= 1
  {
    assert Pow2(k) == 2 * Pow2(k - 1);
  }

  lemma BinaryDouble(y: nat)
    requires y >= 1
    ensures Binary(2 * y) == Binary(y) + [false]
  {
    assert (2 * y) / 2 == y && (2 * y) % 2 == 0;
  }

  /** Leading zero bytes vanish from a decoded name. */
  lemma NameOfPadded(k: nat, bs: seq<u8>)
    ensures NameOf(Zeros(8 * k) + BytesToBits(bs)) == Visible(bs)
  {
    NameOfZeros(k);
    NameOfBytes(bs);
    EightTimes(k);
    NameOfConcat(Zeros(8 * k), BytesToBits(bs));
  }

  lemma EightTimes(k: nat)
    ensures (8 * k) % 8 == 0
  {
  }

  /** A decoded name never holds a NUL and every character is a byte value. */
  lemma {:induction false} NameOfChars(bits: seq<bool>)
    ensures forall i | 0 <= i < |NameOf(bits)| :: 0 < NameOf(bits)[i] as int < 0x100
  {
    if |bits| >= 8 {
      NameOfChars(bits[..|bits| - 8]);
      var c := bits[|bits| - 8..];
      if !AllFalse(c) {
        ValueBound(c);
        Pow2Byte();
        ValueNonZero(c);
      }
    }
  }

  lemma {:induction false} ValueNonZero(c: seq<bool>)
    requires !AllFalse(c)
    ensures Value(c) > 0
  {
    var j :| 0 <= j < |c| && c[j];
    if j == |c| - 1 {
    } else {
      assert !AllFalse(c[..|c| - 1]) by {
        assert c[..|c| - 1][j] == c[j];
      }
      ValueNonZero(c[..|c| - 1]);
    }
  }

  lemma {:induction false} VisibleAscii(s: string)
    requires IsAscii(s) && NoNul(s)
    ensures Visible(LowBytes(s)) == s
  {
    if s != [] {
      var init := s[..|s| - 1];
      assert IsAscii(init) && NoNul(init) by {
        forall i | 0 <= i < |init| ensures init[i] == s[i] {
        }
      }
      assert LowBytes(s)[..|s| - 1] == LowBytes(init);
      VisibleAscii(init);
      assert s == init + [s[|s| - 1]];
    }
  }

  /** Where each field of a built header lies, for a block size that fits its eight bits. */
  lemma HeadLayout(file: string, pixel: u32, remain: u32, pages: u32)
    requires HeadPage(file, pixel, remain, pages).Ok? && pixel < 256
    ensures |file| <= 32 && Utf8Len(file) == |file|
    ensures var h := HeadPage(file, pixel, remain, pages).value;
      |h| == HEAD_BITS
      && h[..NAME_BITS - 8 * |file|] == Zeros(NAME_BITS - 8 * |file|)
      && h[NAME_BITS - 8 * |file|..NAME_BITS] == BytesToBits(LowBytes(file))
      && h[256..264] == FixedWidth(pixel, 8) && Value(h[256..264]) == pixel
      && h[264..296] == FixedWidth(remain, 32) && Value(h[264..296]) == remain
      && h[296..328] == FixedWidth(pages, 32) && Value(h[296..328]) == pages
  {
    DecodeFields(file, pixel, remain, pages);
    var h := HeadPage(file, pixel, remain, pages).value;
    var pad := NAME_BITS - 8 * |file|;
    assert h[..pad] == NameField(file)[..pad] && h[pad..NAME_BITS] == NameField(file)[pad..];
    Split(Zeros(pad), BytesToBits(LowBytes(file)));
  }

  /** The numeric fields of a built header, for a block size that fits its eight bits. */
  lemma DecodeFields(file: string, pixel: u32, remain: u32, pages: u32)
    requires HeadPage(file, pixel, remain, pages).Ok? && pixel < 256
    ensures |file| <= 32 && Utf8Len(file) == |file|
    ensures |BytesToBits(LowBytes(file))| == 8 * |file|
    ensures var h := HeadPage(file, pixel, remain, pages).value;
      |h| == HEAD_BITS && h[..NAME_BITS] == NameField(file)
      && h[256..264] == FixedWidth(pixel, 8) && Value(h[256..264]) == pixel
      && h[264..296] == FixedWidth(remain, 32) && Value(h[264..296]) == remain
      && h[296..328] == FixedWidth(pages, 32) && Value(h[296..328]) == pages
  {
    Pow2Byte();
    Pow2Word();
    FixedWidthProps(pixel, 8);
    FixedWidthProps(remain, 32);
    FixedWidthProps(pages, 32);
    HeadPageLength(file, pixel, remain, pages);
    Utf8LenAtLeast(file);
    BytesToBitsLength(LowBytes(file));
    Fields(NameField(file), FixedWidth(pixel, 8), FixedWidth(remain, 32), FixedWidth(pages, 32));
  }

  /** parse_headpage inverts gen_headpage for an ASCII name of at most 32 characters without NUL
      and a block size below 256. */
  lemma HeadRoundTrip(file: string, pixel: u32, remain: u32, pages: u32)
    requires IsAscii(file) && NoNul(file) && |file| <= 32 && pixel < 256
    ensures HeadPage(file, pixel, remain, pages).Ok?
    ensures ParseHead(HeadPage(file, pixel, remain, pages).value) == Ok((file, pixel, remain, pages))
  {
    HeadPageAscii(file, pixel, remain, pages);
    DecodeFields(file, pixel, remain, pages);
    assert NameOf(NameField(file)) == file by {
      assert NAME_BITS - 8 * |file| == 8 * (32 - |file|);
      NameOfPadded(32 - |file|, LowBytes(file));
      VisibleAscii(file);
    }
    ParseFields(HeadPage(file, pixel, remain, pages).value, file, pixel, remain, pages);
  }

  /** A 328-bit header whose fields read as the given name and numbers parses to them. */
  lemma ParseFields(h: seq<bool>, name: string, pixel: u32, remain: u32, pages: u32)
    requires |h| == HEAD_BITS && NameOf(h[..256]) == name
    requires Value(h[256..264]) == pixel && Value(h[264..296]) == remain && Value(h[296..328]) == pages
    ensures ParseHead(h) == Ok((name, pixel, remain, pages))
  {
  }

  /** parse_headpage looks at the first 328 bits only. */
  lemma ParseHeadIgnoresTail(raw: seq<bool>, extra: seq<bool>)
    requires |raw| >= HEAD_BITS
    ensures ParseHead(raw + extra) == ParseHead(raw)
  {
    var s := raw + extra;
    assert s[..256] == raw[..256];
    assert s[256..264] == raw[256..264];
    assert s[264..296] == raw[264..296];
    assert s[296..328] == raw[296..328];
  }

  /* ---------------------------------------------------------------------------------------- */
  /* The functions of src/head.rs                                                              */

  /** The first half of gen_headpage: the padding, then the eight bits of each character's low
      byte in turn. */
  method FileBits(file: string) returns (filebin: seq<bool>)
    requires 8 * Utf8Len(file) <= NAME_BITS
    ensures filebin == NameField(file)
  {
    filebin := Zeros(NAME_BITS - 8 * Utf8Len(file));
    for i := 0 to |file|
      invariant filebin == Zeros(NAME_BITS - 8 * Utf8Len(file)) + BytesToBits(LowBytes(file[..i]))
    {
      var bits := ByteToBits(LowByte(file[i]));
      LowBytesSnoc(file, i);
      BytesToBitsAppend(LowBytes(file[..i]), [LowByte(file[i])]);
      assert BytesToBits([LowByte(file[i])]) == bits;
      filebin := filebin + bits;
    }
    assert file[..|file|] == file;
  }

  /** gen_headpage: padding, the name's bytes, then the three numerals, appended in turn. */
  method GenHeadpage(file: string, pixel: u32, remain: u32, pages: u32) returns (r: Result<seq<bool>>)
    ensures r == HeadPage(file, pixel, remain, pages)
  {
    if 8 * Utf8Len(file) > NAME_BITS {
      return Err(NameTooLong);
    }
    var filebin := FileBits(file);
    var pixelbin := DecToBin(pixel, 8);
    var remainbin := DecToBin(remain, 32);
    var pagesbin := DecToBin(pages, 32);
    var out := [];
    out := out + filebin;
    assert out == filebin;
    out := out + pixelbin;
    out := out + remainbin;
    out := out + pagesbin;
    assert out == HeadBits(file, pixel, remain, pages);
    if |out| != HEAD_BITS {
      return Err(HeaderLength);
    }
    r := Ok(out);
  }

  /** One of parse_headpage's loops: up to `count` next bits of the shared iterator. */
  method TakeBits(head: seq<bool>, from: nat, count: nat) returns (field: seq<bool>, next: nat)
    requires from <= |head|
    ensures next == Min(from + count, |head|)
    ensures field == head[from..next]
  {
    field := [];
    next := from;
    for j := 0 to count
      invariant next == Min(from + j, |head|)
      invariant field == head[from..next]
    {
      if next < |head| {
        field := field + [head[next]];
        next := next + 1;
      }
    }
  }

  /** parse_headpage: the first 328 bits are copied (fewer is an out-of-range index), then read as
      name, block size, unused bytes and frame count. */
  method ParseHeadpage(raw: seq<bool>) returns (r: Result<(string, u32, u32, u32)>)
    ensures r == ParseHead(raw)
  {
    if |raw| < HEAD_BITS {
      return Err(HeaderTooShort);
    }
    var head := raw[..HEAD_BITS];
    var pos := 0;
    var name, pixelbin, remainbin, pagesbin;
    name, pos := TakeBits(head, pos, 256);
    var filename := BinToStr(name);
    pixelbin, pos := TakeBits(head, pos, 8);
    remainbin, pos := TakeBits(head, pos, 32);
    pagesbin, pos := TakeBits(head, pos, 32);
    FitsWord(pixelbin);
    FitsWord(remainbin);
    FitsWord(pagesbin);
    var pixel := BinToDec(pixelbin);
    var remain := BinToDec(remainbin);
    var pages := BinToDec(pagesbin);
    assert name == raw[..256];
    assert pixelbin == raw[256..264];
    assert remainbin == raw[264..296];
    assert pagesbin == raw[296..328];
    r := Ok((filename.value, pixel.value, remain.value, pages.value));
  }
}
