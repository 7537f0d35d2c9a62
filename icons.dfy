/** The icon script's byte builder: a fixed 49-byte header holding the PNG
    signature and chunk headers with the width and height written
    big-endian, one colour triple per pixel, and a fixed 12-byte trailer.
    Every number goes through `Buffer.from`, which keeps its low eight bits.
    The header fields follow the layout of the IHDR chunk in section 11.2.2
    of the PNG specification (ISO/IEC 15948); chunk checksums are absent, the
    data chunk's type bytes spell `IDTA` rather than `IDAT`, its length field
    holds one truncated byte, and the pixel data is not a valid zlib stream,
    so the output is only laid out like a PNG file. */
module Icons {

  newtype byte = x: int | 0 <= x < 256

  /** `Buffer.from` on a number: its low eight bits. */
  function Low8(x: int): byte
  {
    (x % 256) as byte
  }

  /** `(x >> shift) & 0xFF`: bits `shift` to `shift + 7` of `x`. */
  function ByteOf(x: int, shift: nat): byte
    requires shift == 0 || shift == 8 || shift == 16 || shift == 24
  {
    var p := if shift == 0 then 1 else if shift == 8 then 0x100 else if shift == 16 then 0x1_0000 else 0x100_0000;
    ((x / p) % 256) as byte
  }

  /** Section 5.2 of the PNG specification: the eight-byte signature. */
  const Signature: seq<byte> := [0x89, 0x50, 0x4E, 0x47, 0x0D, 0x0A, 0x1A, 0x0A]

  /** The `IEND` chunk with its checksum. */
  const Trailer: seq<byte> := [0x00, 0x00, 0x00, 0x00, 0x49, 0x45, 0x4E, 0x44, 0xAE, 0x42, 0x60, 0x82]

  const HeaderLength: nat := 49

  /** The `pixel` array once `Buffer.from` has stored it. */
  function Header(width: int, height: int): (h: seq<byte>)
    ensures |h| == HeaderLength
    ensures h[..8] == Signature
  {
    Signature
    + [0x00, 0x00, 0x00, 0x0D, 0x49, 0x48, 0x44, 0x52]
    + [ByteOf(width, 24), ByteOf(width, 16), ByteOf(width, 8), ByteOf(width, 0)]
    + [ByteOf(height, 24), ByteOf(height, 16), ByteOf(height, 8), ByteOf(height, 0)]
    + [0x08, 0x02, 0x00, 0x00, 0x00]
    + [0x00, 0x00, 0x00, 0x01, 0x73, 0x52, 0x47, 0x42, 0x00]
    + [0x00, 0x00, 0x00, Low8(width * height * 3 + 6)]
    + [0x49, 0x44, 0x54, 0x41, 0x78, 0x9C, 0x01]
  }

  /** Colour component `c`; a missing component reads as `undefined`, which
      `Buffer.from` stores as 0. */
  function Component(color: seq<int>, c: nat): byte
  {
    if c < |color| then Low8(color[c]) else 0
  }

  /** The number of pixels the loop writes: `width * height`, or none when
      that is not positive. */
  function PixelCount(width: int, height: int): nat
  {
    if width * height > 0 then width * height else 0
  }

  /** The big-endian 32-bit number at `s[i..i + 4]`. */
  function ReadU32(s: seq<byte>, i: nat): nat
    requires i + 4 <= |s|
  {
    s[i] as nat * 0x100_0000 + s[i + 1] as nat * 0x1_0000 + s[i + 2] as nat * 0x100 + s[i + 3] as nat
  }

  /** The colour triple repeated `n` times. */
  function Pixels(color: seq<int>, n: nat): (r: seq<byte>)
    ensures |r| == 3 * n
  {
    if n == 0 then [] else Pixels(color, n - 1) + [Component(color, 0), Component(color, 1), Component(color, 2)]
  }

  /** Byte `k` of the repeated triple is colour component `k % 3`. */
  lemma {:induction false} PixelsAt(color: seq<int>, n: nat, k: nat)
    requires k < 3 * n
    ensures Pixels(color, n)[k] == Component(color, k % 3)
  {
    if k < 3 * (n - 1) {
      PixelsAt(color, n - 1, k);
    } else {
      var j := k - 3 * (n - 1);
      assert k == 3 * (n - 1) + j && 0 <= j < 3;
      assert k % 3 == j;
    }
  }

  /** `createSimplePNG(width, height, color)`. */
  method CreateSimplePng(width: int, height: int, color: seq<int>) returns (png: seq<byte>)
    ensures |png| == HeaderLength + 3 * PixelCount(width, height) + |Trailer|
    ensures png[..HeaderLength] == Header(width, height)
    ensures forall k :: HeaderLength <= k < HeaderLength + 3 * PixelCount(width, height) ==>
              png[k] == Component(color, (k - HeaderLength) % 3)
    ensures png[|png| - |Trailer|..] == Trailer
  {
    var pixel := Header(width, height);
    var data: seq<byte> := [];
    var count := PixelCount(width, height);
    for i := 0 to count
      invariant data == Pixels(color, i)
    {
      data := data + [Component(color, 0), Component(color, 1), Component(color, 2)];
    }
    png := pixel + data + Trailer;
    assert png[..HeaderLength] == pixel;
    forall k | HeaderLength <= k < HeaderLength + 3 * count
      ensures png[k] == Component(color, (k - HeaderLength) % 3)
    {
      assert png[k] == data[k - HeaderLength];
      PixelsAt(color, count, k - HeaderLength);
    }
  }

  /** Reading bytes 16-19 and 20-23 back gives the width and height modulo
      2^32, as the IHDR fields hold them; the bit depth is 8, the colour type
      2 (truecolour) and byte 41 the low eight bits of the claimed data
      length. */
  lemma HeaderFields(width: int, height: int)
    ensures ReadU32(Header(width, height), 16) == width % 0x1_0000_0000
    ensures ReadU32(Header(width, height), 20) == height % 0x1_0000_0000
    ensures Header(width, height)[24] == 8 && Header(width, height)[25] == 2
    ensures Header(width, height)[41] as int == (width * height * 3 + 6) % 256
  {
    var h := Header(width, height);
    assert h[16] == ByteOf(width, 24) && h[17] == ByteOf(width, 16) && h[18] == ByteOf(width, 8) && h[19] == ByteOf(width, 0);
    assert h[20] == ByteOf(height, 24) && h[21] == ByteOf(height, 16) && h[22] == ByteOf(height, 8) && h[23] == ByteOf(height, 0);
    BigEndian(width);
    BigEndian(height);
  }

  /** The four bytes `(x >> 24) & 0xFF` ... `x & 0xFF` spell `x` modulo 2^32. */
  lemma BigEndian(x: int)
    ensures (x / 0x100_0000) % 256 * 0x100_0000 + (x / 0x1_0000) % 256 * 0x1_0000
            + (x / 0x100) % 256 * 0x100 + x % 256 == x % 0x1_0000_0000
  {
    var q1 := x / 0x100;
    var q2 := q1 / 0x100;
    var q3 := q2 / 0x100;
    DivDiv(x, 0x100, 0x100);
    DivDiv(x, 0x1_0000, 0x100);
    assert q2 == x / 0x1_0000;
    assert q3 == x / 0x100_0000;
    assert x == q1 * 0x100 + x % 0x100;
    assert q1 == q2 * 0x100 + q1 % 0x100;
    assert q2 == q3 * 0x100 + q2 % 0x100;
    var low := (q3 % 256) * 0x100_0000 + (q2 % 256) * 0x1_0000 + (q1 % 256) * 0x100 + x % 256;
    assert x == (q3 / 0x100) * 0x1_0000_0000 + low by {
      assert q3 == (q3 / 0x100) * 0x100 + q3 % 0x100;
    }
    assert 0 <= low < 0x1_0000_0000;
    ModUnique(x, q3 / 0x100, low);
  }

  lemma DivDiv(x: int, a: int, b: int)
    requires a > 0 && b > 0
    ensures x / a / b == x / (a * b)
  {
    var q := x / a;
    var r := x % a;
    var q' := q / b;
    var r' := q % b;
    assert x == q * a + r;
    assert q == q' * b + r';
    MulRegroup(q', b, r', a);
    MulBelow(r', b, a);
    DivUnique(x, a * b, q', r' * a + r);
  }

  lemma MulRegroup(q: int, b: int, r: int, a: int)
    ensures (q * b + r) * a == q * (a * b) + r * a
  {
  }

  lemma MulBelow(r: int, b: int, a: int)
    requires 0 <= r < b && a > 0
    ensures 0 <= r * a && r * a + a <= a * b
  {
    MulAtLeast(b - r, a);
    assert (b - r) * a == a * b - r * a;
  }

  lemma DivUnique(x: int, d: int, q: int, r: int)
    requires d > 0 && x == q * d + r && 0 <= r < d
    ensures x / d == q && x % d == r
  {
    var q0 := x / d;
    var r0 := x % d;
    assert (q - q0) * d == r0 - r;
    if q > q0 {
      MulAtLeast(q - q0, d);
    } else if q < q0 {
      MulAtLeast(q0 - q, d);
    }
  }

  lemma MulAtLeast(a: int, d: int)
    requires a >= 1 && d > 0
    ensures a * d >= d
  {
  }

  lemma ModUnique(x: int, q: int, low: int)
    requires x == q * 0x1_0000_0000 + low && 0 <= low < 0x1_0000_0000
    ensures x % 0x1_0000_0000 == low
  {
    DivUnique(x, 0x1_0000_0000, q, low);
  }

  /** The 72-pixel icon: its claimed data length 72 * 72 * 3 + 6 = 15558 is
      stored as its low byte, 198. */
  lemma Icon72LengthByte()
    ensures Header(72, 72)[41] == 198
  {
  }
}
