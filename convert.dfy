/** The bit codec of src/convert.rs: fixed-width numerals, bytes as eight bits, packing a bit
    stream into bytes and reading a zero-padded name field.

    The source builds strings of '0'/'1' and hands them to `from_str_radix`; the model keeps the
    bits and their numeric value instead. */
module Convert {
  import opened Types

  /* ---------------------------------------------------------------------------------------- */
  /* Specification functions                                                                   */

  function Pow2(n: nat): (r: nat)
    ensures r >= 1
  {
    if n == 0 then 1 else 2 * Pow2(n - 1)
  }

  /** The unsigned number a bit string denotes, most significant bit first. */
  function Value(bits: seq<bool>): nat
  {
    if bits == [] then 0
    else 2 * Value(bits[..|bits| - 1]) + (if bits[|bits| - 1] then 1 else 0)
  }

  function Zeros(n: nat): (r: seq<bool>)
    ensures |r| == n
  {
    seq(n, _ => false)
  }

  /** The digits `format!("{:b}", x)` writes: the shortest numeral of x, a single 0 for zero. */
  function Binary(x: nat): (r: seq<bool>)
    ensures |r| >= 1
  {
    if x < 2 then [x == 1] else Binary(x / 2) + [x % 2 == 1]
  }

  /** The numeral of x after zeros have been put in front of it until it has n digits. */
  function FixedWidth(x: nat, n: nat): seq<bool>
  {
    if |Binary(x)| < n then Zeros(n - |Binary(x)|) + Binary(x) else Binary(x)
  }

  /** The eight bits of a byte, most significant first. */
  function BitsOf(b: u8): seq<bool>
  {
    FixedWidth(b, 8)
  }

  /** The bits of a byte string: each byte's eight bits, in order. */
  function BytesToBits(bs: seq<u8>): seq<bool>
  {
    if bs == [] then [] else BitsOf(bs[0]) + BytesToBits(bs[1..])
  }

  /** Chunk k of a bit stream cut into groups of eight; the last group may be shorter. */
  function Chunk(bits: seq<bool>, k: nat): seq<bool>
    requires 8 * k < |bits|
  {
    bits[8 * k .. Min(8 * k + 8, |bits|)]
  }

  function ChunkCount(bits: seq<bool>): nat
  {
    (|bits| + 7) / 8
  }

  /** The byte a chunk of at most eight bits stands for. */
  function ChunkValue(bits: seq<bool>, k: nat): u8
    requires 8 * k < |bits|
  {
    ValueBound(Chunk(bits, k));
    Pow2Mono(|Chunk(bits, k)|, 8);
    Pow2Byte();
    Value(Chunk(bits, k))
  }

  /** Every chunk of the stream read as a byte, in order. */
  function Pack(bits: seq<bool>): (r: seq<u8>)
    ensures |r| == ChunkCount(bits)
  {
    seq(ChunkCount(bits), k requires 0 <= k < ChunkCount(bits) => ChunkValue(bits, k))
  }

  predicate AllFalse(c: seq<bool>)
  {
    forall i | 0 <= i < |c| :: !c[i]
  }

  /** The character a non-zero byte chunk decodes to: a byte read as a code point. */
  function CharOfChunk(c: seq<bool>): string
    requires |c| == 8
  {
    ValueBound(c);
    Pow2Byte();
    if AllFalse(c) then [] else [Value(c) as char]
  }

  /** A name field decoded chunk by chunk, every all-zero chunk dropped (meant for streams
      whose length is a multiple of eight). */
  function NameOf(bits: seq<bool>): string
  {
    if |bits| < 8 then [] else NameOf(bits[..|bits| - 8]) + CharOfChunk(bits[|bits| - 8..])
  }

  /** The characters of the non-zero bytes of a byte string, in order. */
  function Visible(bs: seq<u8>): string
  {
    if bs == [] then []
    else Visible(bs[..|bs| - 1]) + (if bs[|bs| - 1] == 0 then [] else [bs[|bs| - 1] as char])
  }

  /* ---------------------------------------------------------------------------------------- */
  /* Arithmetic of numerals                                                                    */

  lemma Pow2Byte()
    ensures Pow2(8) == U8_LIMIT
  {
  }

  lemma Pow2Word()
    ensures Pow2(32) == U32_LIMIT
  {
    assert Pow2(8) == 256;
    assert Pow2(16) == 65536;
    assert Pow2(24) == 16777216;
  }

  lemma {:induction false} Pow2Mono(m: nat, n: nat)
    requires m <= n
    ensures Pow2(m) <= Pow2(n)
  {
    if m < n {
      Pow2Mono(m, n - 1);
    }
  }

  lemma ValueSnoc(s: seq<bool>, b: bool)
    ensures Value(s + [b]) == 2 * Value(s) + (if b then 1 else 0)
  {
    assert (s + [b])[..|s|] == s;
  }

  lemma {:induction false} ValueBound(s: seq<bool>)
    ensures Value(s) < Pow2(|s|)
  {
    if s != [] {
      ValueBound(s[..|s| - 1]);
    }
  }

  lemma ShiftIn(va: int, vb: int, p: int, d: int)
    ensures 2 * (va * p + vb) + d == va * (2 * p) + (2 * vb + d)
  {
  }

  lemma {:induction false} ValueConcat(a: seq<bool>, b: seq<bool>)
    ensures Value(a + b) == Value(a) * Pow2(|b|) + Value(b)
  {
    if b == [] {
      assert a + b == a;
    } else {
      var b' := b[..|b| - 1];
      var x := b[|b| - 1];
      assert b == b' + [x];
      assert a + b == (a + b') + [x];
      ValueSnoc(a + b', x);
      ValueSnoc(b', x);
      ValueConcat(a, b');
      ShiftIn(Value(a), Value(b'), Pow2(|b'|), if x then 1 else 0);
    }
  }

  lemma {:induction false} ValueZeros(n: nat)
    ensures Value(Zeros(n)) == 0
  {
    if n > 0 {
      assert Zeros(n)[..n - 1] == Zeros(n - 1);
      ValueZeros(n - 1);
    }
  }

  lemma ValueZeroPrefix(n: nat, s: seq<bool>)
    ensures Value(Zeros(n) + s) == Value(s)
  {
    ValueConcat(Zeros(n), s);
    ValueZeros(n);
  }

  lemma ZerosCons(k: nat, s: seq<bool>)
    ensures [false] + (Zeros(k) + s) == Zeros(k + 1) + s
  {
    assert [false] + Zeros(k) == Zeros(k + 1);
  }

  /** The only eight-bit chunk equal to eight false bits is one whose bits are all false. */
  lemma ZeroChunk(c: seq<bool>)
    ensures c == Zeros(8) <==> |c| == 8 && AllFalse(c)
  {
    if |c| == 8 && AllFalse(c) {
      assert c == Zeros(8);
    }
  }

  lemma {:induction false} BinaryValue(x: nat)
    ensures Value(Binary(x)) == x
  {
    if x >= 2 {
      BinaryValue(x / 2);
      ValueSnoc(Binary(x / 2), x % 2 == 1);
    } else {
      assert [x == 1][..0] == [];
    }
  }

  lemma {:induction false} BinaryLength(x: nat, n: nat)
    requires n >= 1 && x < Pow2(n)
    ensures |Binary(x)| <= n
  {
    if x >= 2 {
      BinaryLength(x / 2, n - 1);
    }
  }

  /** What the padded numeral is: its value, its width, and that it never drops digits. */
  lemma FixedWidthProps(x: nat, n: nat)
    ensures Value(FixedWidth(x, n)) == x
    ensures n >= 1 && x < Pow2(n) ==> |FixedWidth(x, n)| == n
    ensures x >= Pow2(n) ==> |FixedWidth(x, n)| > n
    ensures |FixedWidth(x, n)| >= n
  {
    BinaryValue(x);
    if |Binary(x)| < n {
      ValueZeroPrefix(n - |Binary(x)|, Binary(x));
    }
    if n >= 1 && x < Pow2(n) {
      BinaryLength(x, n);
    }
    if x >= Pow2(n) {
      ValueBound(Binary(x));
      if |Binary(x)| <= n {
        Pow2Mono(|Binary(x)|, n);
      }
    }
  }

  lemma ByteWidth(b: u8)
    ensures |FixedWidth(b, 8)| == 8 && Value(FixedWidth(b, 8)) == b
  {
    Pow2Byte();
    FixedWidthProps(b, 8);
  }

  lemma BitsOfProps(b: u8)
    ensures |BitsOf(b)| == 8
    ensures Value(BitsOf(b)) == b
    ensures AllFalse(BitsOf(b)) <==> b == 0
  {
    Pow2Byte();
    FixedWidthProps(b, 8);
    if AllFalse(BitsOf(b)) {
      ZeroChunk(BitsOf(b));
      ValueZeros(8);
    }
  }

  lemma {:induction false} BytesToBitsLength(bs: seq<u8>)
    ensures |BytesToBits(bs)| == 8 * |bs|
  {
    if bs != [] {
      BitsOfProps(bs[0]);
      BytesToBitsLength(bs[1..]);
    }
  }

  lemma {:induction false} BytesToBitsAppend(a: seq<u8>, b: seq<u8>)
    ensures BytesToBits(a + b) == BytesToBits(a) + BytesToBits(b)
  {
    if a == [] {
      assert a + b == b;
    } else {
      assert (a + b)[1..] == a[1..] + b;
      BytesToBitsAppend(a[1..], b);
    }
  }

  lemma {:induction false} BytesToBitsChunk(bs: seq<u8>, k: nat)
    requires k < |bs|
    ensures |BytesToBits(bs)| == 8 * |bs|
    ensures BytesToBits(bs)[8 * k .. 8 * k + 8] == BitsOf(bs[k])
  {
    BytesToBitsLength(bs);
    BitsOfProps(bs[0]);
    if k > 0 {
      BytesToBitsChunk(bs[1..], k - 1);
      assert BytesToBits(bs)[8 * k .. 8 * k + 8] == BytesToBits(bs[1..])[8 * (k - 1) .. 8 * (k - 1) + 8];
    }
  }

  /** Packing the bits of a byte string gives back the byte string. */
  lemma PackBytesToBits(bs: seq<u8>)
    ensures Pack(BytesToBits(bs)) == bs
  {
    var bits := BytesToBits(bs);
    BytesToBitsLength(bs);
    assert ChunkCount(bits) == |bs|;
    forall k | 0 <= k < |bs|
      ensures Pack(bits)[k] == bs[k]
    {
      BytesToBitsChunk(bs, k);
      assert Chunk(bits, k) == BitsOf(bs[k]);
      BitsOfProps(bs[k]);
    }
  }

  lemma {:induction false} NameOfZeros(k: nat)
    ensures NameOf(Zeros(8 * k)) == []
  {
    if k > 0 {
      assert Zeros(8 * k)[..8 * k - 8] == Zeros(8 * (k - 1));
      assert Zeros(8 * k)[8 * k - 8..] == Zeros(8);
      NameOfZeros(k - 1);
    }
  }

  /** Name decoding works chunk by chunk, so it distributes over concatenation. */
  lemma {:induction false} NameOfConcat(a: seq<bool>, b: seq<bool>)
    requires |a| % 8 == 0 && |b| % 8 == 0
    ensures NameOf(a + b) == NameOf(a) + NameOf(b)
  {
    if b == [] {
      assert a + b == a;
    } else {
      var b' := b[..|b| - 8];
      assert (a + b)[..|a + b| - 8] == a + b';
      assert (a + b)[|a + b| - 8..] == b[|b| - 8..];
      NameOfConcat(a, b');
    }
  }

  /** A single chunk of eight false bits decodes to nothing. */
  lemma NameOfZeroChunk(z: seq<bool>)
    requires |z| == 8 && AllFalse(z)
    ensures NameOf(z) == []
  {
    assert z[..0] == [] && z[0..] == z;
  }

  lemma OneMoreChunk(n: nat)
    requires n % 8 == 0
    ensures (n + 8) % 8 == 0
  {
  }

  /** Every all-zero chunk is dropped, wherever it stands, not only in leading padding. */
  lemma NameOfSkipsZeroChunk(a: seq<bool>, z: seq<bool>, b: seq<bool>)
    requires |a| % 8 == 0 && |b| % 8 == 0
    requires |z| == 8 && AllFalse(z)
    ensures NameOf(a + z + b) == NameOf(a + b)
  {
    var az := a + z;
    assert NameOf(az) == NameOf(a) by {
      NameOfZeroChunk(z);
      NameOfConcat(a, z);
    }
    assert NameOf(az + b) == NameOf(az) + NameOf(b) by {
      OneMoreChunk(|a|);
      NameOfConcat(az, b);
    }
    assert NameOf(a + b) == NameOf(a) + NameOf(b) by {
      NameOfConcat(a, b);
    }
    assert a + z + b == az + b;
  }

  /** The decoded name of a byte string's bits: one character per non-zero byte. */
  lemma {:induction false} NameOfBytes(bs: seq<u8>)
    ensures |BytesToBits(bs)| % 8 == 0
    ensures NameOf(BytesToBits(bs)) == Visible(bs)
  {
    BytesToBitsLength(bs);
    if bs != [] {
      var init := bs[..|bs| - 1];
      var last := bs[|bs| - 1];
      assert bs == init + [last];
      BytesToBitsAppend(init, [last]);
      assert BytesToBits([last]) == BitsOf(last) + BytesToBits([]);
      BitsOfProps(last);
      BytesToBitsLength(init);
      var bits := BytesToBits(bs);
      assert bits[..|bits| - 8] == BytesToBits(init);
      assert bits[|bits| - 8..] == BitsOf(last);
      NameOfBytes(init);
    }
  }

  lemma ShortTail(n: nat, k: nat)
    requires 8 * k < n < 8 * k + 8
    ensures n % 8 != 0
  {
  }

  lemma WholeChunks(n: nat, k: nat)
    requires 8 * k <= n && k >= (n + 7) / 8
    ensures n == 8 * k && n % 8 == 0
  {
  }

  lemma NameOfStep(bits: seq<bool>, k: nat)
    requires 8 * k + 8 <= |bits|
    ensures NameOf(bits[..8 * k + 8]) == NameOf(bits[..8 * k]) + CharOfChunk(bits[8 * k .. 8 * k + 8])
  {
    var p := bits[..8 * k + 8];
    assert p[..|p| - 8] == bits[..8 * k];
    assert p[|p| - 8..] == bits[8 * k .. 8 * k + 8];
  }

  /* ---------------------------------------------------------------------------------------- */
  /* The functions of src/convert.rs                                                           */

  /** dec_to_bin: the numeral of x, left-padded with false up to n digits but never cut. */
  method DecToBin(x: u32, n: nat) returns (r: seq<bool>)
    ensures r == FixedWidth(x, n)
    ensures Value(r) == x
    ensures n >= 1 && x < Pow2(n) ==> |r| == n
    ensures x >= Pow2(n) ==> |r| > n
  {
    var pad: nat := 0;
    r := Binary(x);
    while |r| < n
      invariant r == Zeros(pad) + Binary(x)
      invariant pad > 0 ==> |r| <= n
      decreases n - |r|
    {
      ZerosCons(pad, Binary(x));
      r := [false] + r;
      pad := pad + 1;
    }
    FixedWidthProps(x, n);
  }

  /** bin_to_dec at the u32 type parse_headpage uses: fails on no digits or on overflow. */
  method BinToDec(bits: seq<bool>) returns (r: Result<u32>)
    ensures r.Ok? <==> bits != [] && Value(bits) < U32_LIMIT
    ensures r.Ok? ==> r.value == Value(bits)
    ensures r.Err? ==> r.error == BinToDecFailed
  {
    var acc: nat := 0;
    for i := 0 to |bits|
      invariant acc == Value(bits[..i])
    {
      ValueSnoc(bits[..i], bits[i]);
      assert bits[..i + 1] == bits[..i] + [bits[i]];
      acc := 2 * acc + (if bits[i] then 1 else 0);
    }
    assert bits[..|bits|] == bits;
    if bits == [] || acc >= U32_LIMIT {
      r := Err(BinToDecFailed);
    } else {
      r := Ok(acc);
    }
  }

  /** byte_to_bits: always eight bits, most significant first. */
  method ByteToBits(b: u8) returns (r: seq<bool>)
    ensures r == BitsOf(b)
    ensures |r| == 8 && Value(r) == b
  {
    var width: nat := 8;
    var pad: nat := 0;
    r := Binary(b);
    while |r| < width
      invariant r == Zeros(pad) + Binary(b)
      invariant pad > 0 ==> |r| <= width
      decreases width - |r|
    {
      ZerosCons(pad, Binary(b));
      r := [false] + r;
      pad := pad + 1;
    }
    ByteWidth(b);
  }

  /** bits_to_byte: asserts that it is given exactly eight bits. */
  method BitsToByte(bits: seq<bool>) returns (r: Result<u8>)
    ensures r.Ok? <==> |bits| == 8
    ensures r.Ok? ==> r.value == Value(bits)
    ensures r.Err? ==> r.error == NotEightBits
  {
    if |bits| != 8 {
      return Err(NotEightBits);
    }
    var acc: nat := 0;
    for i := 0 to 8
      invariant acc == Value(bits[..i])
    {
      ValueSnoc(bits[..i], bits[i]);
      assert bits[..i + 1] == bits[..i] + [bits[i]];
      acc := 2 * acc + (if bits[i] then 1 else 0);
    }
    assert bits[..8] == bits;
    ValueBound(bits);
    Pow2Byte();
    r := Ok(acc);
  }

  /** pages_to_bytes: one byte per chunk of eight bits; a short last chunk is read as it is. */
  method PagesToBytes(bits: seq<bool>) returns (out: seq<u8>)
    ensures out == Pack(bits)
    ensures |bits| % 8 == 0 ==> |out| == |bits| / 8
  {
    out := [];
    var k := 0;
    while k < ChunkCount(bits)
      invariant k <= ChunkCount(bits)
      invariant out == Pack(bits)[..k]
    {
      var value := ChunkToByte(bits, k);
      out := out + [value];
      k := k + 1;
    }
  }

  /** One pass of pages_to_bytes's loop: the digits of chunk k read in base 2. */
  method ChunkToByte(bits: seq<bool>, k: nat) returns (value: u8)
    requires 8 * k < |bits|
    ensures value == ChunkValue(bits, k)
  {
    var hi := Min(8 * k + 8, |bits|);
    var acc: nat := 0;
    for i := 8 * k to hi
      invariant acc == Value(bits[8 * k .. i])
    {
      ValueSnoc(bits[8 * k .. i], bits[i]);
      assert bits[8 * k .. i + 1] == bits[8 * k .. i] + [bits[i]];
      acc := 2 * acc + (if bits[i] then 1 else 0);
    }
    assert acc == ChunkValue(bits, k);
    value := acc;
  }

  /** bin_to_str: one character per non-zero chunk; a trailing short chunk reaches
      bits_to_byte's assertion. */
  method BinToStr(bits: seq<bool>) returns (r: Result<string>)
    ensures r.Ok? <==> |bits| % 8 == 0
    ensures r.Ok? ==> r.value == NameOf(bits)
    ensures r.Err? ==> r.error == NotEightBits
  {
    var out: string := [];
    var k := 0;
    while k < ChunkCount(bits)
      invariant k <= ChunkCount(bits)
      invariant 8 * k <= |bits|
      invariant out == NameOf(bits[..8 * k])
    {
      var chunk := Chunk(bits, k);
      ZeroChunk(chunk);
      if chunk != Zeros(8) {
        var b := BitsToByte(chunk);
        if b.Err? {
          ShortTail(|bits|, k);
          return Err(NotEightBits);
        }
        out := out + [b.value as char];
      }
      NameOfStep(bits, k);
      k := k + 1;
    }
    WholeChunks(|bits|, k);
    assert bits[..8 * k] == bits;
    r := Ok(out);
  }
}
