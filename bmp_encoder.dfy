/** The BMP encoder: a sub-image stored as a headerless DIB (BITMAPINFOHEADER,
    colour table, XOR plane, AND plane), read from and written to a stream
    that is modelled as the sequence of bytes from the current position on. */
module BmpEncoder {
  import opened Bytes
  import opened Wrappers
  import opened ImageEncoder
  import Drawing
  import Enums

  /** The format a BMP encoder reports. */
  const Format := Enums.BMP

  /** The row size the reader computes: `(int)((biWidth * bpp + 31) & ~31) >> 3`.
      The sum is a `uint` and wraps at 2^32; the mask with the int `~31`
      widens it to a `long`, the cast keeps the low 32 bits as a signed int,
      and the shift is arithmetic. Since 32 divides 2^32, wrapping the sum
      first or the masked value last gives the same low 32 bits, which is
      how the model computes it. Whenever the sum fits an int, the row size
      is the DWORD-aligned DIB stride. */
  function RowStride(width: u32, bpp: u16): (r: int)
    ensures width * bpp + 31 < 0x8000_0000 ==> r == Drawing.Stride(width, bpp)
  {
    Drawing.AreaIsProduct(bpp as nat, width as nat);
    Int32((width * bpp + 31) / 32 * 32) / 8
  }

  /** The XOR plane's byte count: stride at the header's depth times the
      height of one plane (biHeight counts both planes). */
  function XorLength(h: Header): int
  {
    RowStride(h.biWidth, h.biBitCount) * (h.biHeight / 2)
  }

  /** The AND plane's byte count: a 1 bpp stride times the plane height. */
  function AndLength(h: Header): int
  {
    RowStride(h.biWidth, 1) * (h.biHeight / 2)
  }

  /** A size a .NET byte array can be allocated with: a negative size throws
      an OverflowException, and one of 2 GiB or more an OutOfMemoryException. */
  predicate Allocatable(n: int)
  {
    0 <= n < 0x8000_0000
  }

  /** `Stream.Read(buffer, 0, n)` into a fresh buffer: the bytes that are
      left, up to `n`, and zeros where the stream ran out (the count the call
      returns is ignored). */
  function Fill(s: seq<byte>, at: nat, n: nat): (buf: seq<byte>)
    ensures |buf| == n
  {
    if at + n <= |s| then s[at..at + n]
    else if at <= |s| then s[at..] + Zeros(n - (|s| - at))
    else Zeros(n)
  }

  /** The stream position after such a read. */
  function Advance(s: seq<byte>, at: nat, n: nat): nat
  {
    if at + n <= |s| then at + n else if at <= |s| then |s| else at
  }

  /** Why a read stops: the header did not fit in the stream, or a buffer
      size could not be allocated. */
  datatype Fault = EndOfStream | BadSize

  datatype ReadResult = Loaded(img: Image) | Failed(fault: Fault)

  /** What `Read` loads from a stream: the header, `ColorsInPalette`
      RGBQUADs, the XOR plane and the AND plane, in that order. */
  function Parse(s: seq<byte>): (r: ReadResult)
    ensures r.Loaded? ==> |r.img.colors| == ColorsInPalette(r.img.header)
    ensures r.Loaded? ==> |r.img.xor| == XorLength(r.img.header) && |r.img.and| == AndLength(r.img.header)
  {
    if |s| < HeaderSize then Failed(EndOfStream)
    else
      var h := ReadHeader(s);
      var n := ColorsInPalette(h);
      if !Allocatable(QuadSize * n) || !Allocatable(XorLength(h)) || !Allocatable(AndLength(h)) then
        Failed(BadSize)
      else
        var p1 := Advance(s, HeaderSize, QuadSize * n);
        var p2 := Advance(s, p1, XorLength(h));
        Loaded(Image(h, ReadQuads(Fill(s, HeaderSize, QuadSize * n)), Fill(s, p1, XorLength(h)),
          Fill(s, p2, AndLength(h))))
  }

  /** The sizes a sub-image must have for `Read` to give it back. */
  predicate Framed(img: Image)
  {
    && Allocatable(QuadSize * ColorsInPalette(img.header))
    && |img.colors| == ColorsInPalette(img.header)
    && |img.xor| == XorLength(img.header) && Allocatable(|img.xor|)
    && |img.and| == AndLength(img.header) && Allocatable(|img.and|)
  }

  /** Reading a buffer's worth of bytes from where that buffer was written. */
  lemma FillPrefix(s: seq<byte>, at: nat, part: seq<byte>, rest: seq<byte>)
    requires at <= |s| && s[at..] == part + rest
    ensures Fill(s, at, |part|) == part && Advance(s, at, |part|) == at + |part|
    ensures at + |part| <= |s| && s[at + |part|..] == rest
  {
    assert s[at..at + |part|] == (part + rest)[..|part|];
  }

  /** Five runs of bytes, grouped from the right. */
  lemma Regroup(a: seq<byte>, b: seq<byte>, c: seq<byte>, d: seq<byte>, e: seq<byte>)
    ensures a + b + c + d + e == a + (b + (c + (d + e)))
    ensures (a + (b + (c + (d + e))))[|a|..] == b + (c + (d + e))
  {
  }

  /** A stream whose sections read as a framed sub-image's parts parses as it. */
  lemma ParseFramed(s: seq<byte>, img: Image)
    requires Framed(img) && |s| >= HeaderSize && ReadHeader(s) == img.header
    requires var h, n := img.header, QuadSize * ColorsInPalette(img.header);
      var p := Advance(s, HeaderSize, n);
      && ReadQuads(Fill(s, HeaderSize, n)) == img.colors
      && Fill(s, p, XorLength(h)) == img.xor
      && Fill(s, Advance(s, p, XorLength(h)), AndLength(h)) == img.and
    ensures Parse(s) == Loaded(img)
  {
  }

  /** Three buffers written one after the other behind a header are read
      back in turn. */
  lemma ReadSections(head: seq<byte>, pal: seq<byte>, xor: seq<byte>, and: seq<byte>, rest: seq<byte>)
    ensures var s := head + pal + xor + and + rest;
      var p := Advance(s, |head|, |pal|);
      && Fill(s, |head|, |pal|) == pal
      && Fill(s, p, |xor|) == xor
      && Fill(s, Advance(s, p, |xor|), |and|) == and
  {
    var s := head + pal + xor + and + rest;
    Regroup(head, pal, xor, and, rest);
    FillPrefix(s, |head|, pal, xor + (and + rest));
    FillPrefix(s, |head| + |pal|, xor, and + rest);
    FillPrefix(s, |head| + |pal| + |xor|, and, rest);
  }

  /** Round trip: what `Write` emits, followed by anything, reads back as
      the same header, colour table, XOR plane and AND plane. */
  lemma RoundTrip(img: Image, rest: seq<byte>)
    requires Framed(img)
    ensures Parse(DibBytes(img) + rest) == Loaded(img)
  {
    var h, pal := img.header, PaletteBytes(img);
    assert pal == QuadBytes(img.colors);
    var s := DibBytes(img) + rest;
    Regroup(HeaderBytes(h), pal, img.xor, img.and, rest);
    HeaderRoundTrip(h, pal + (img.xor + (img.and + rest)));
    ReadSections(HeaderBytes(h), pal, img.xor, img.and, rest);
    QuadsRoundTrip(img.colors);
    ParseFramed(s, img);
  }

  /** Each byte of such a buffer is the stream's byte at that place, or zero
      past the stream's end. */
  lemma FillBytes(s: seq<byte>, at: nat, n: nat, i: nat)
    requires i < n
    ensures Fill(s, at, n)[i] == if at + i < |s| then s[at + i] else 0
  {
  }

  /** On a short stream every byte past its end reads as zero: the missing
      tail of the XOR plane is zero. */
  lemma ShortXorTail(s: seq<byte>, i: nat)
    requires Parse(s).Loaded? && i < |Parse(s).img.xor|
    requires HeaderSize + QuadSize * ColorsInPalette(Parse(s).img.header) + i >= |s|
    ensures Parse(s).img.xor[i] == 0
  {
    var h := ReadHeader(s);
    FillBytes(s, Advance(s, HeaderSize, QuadSize * ColorsInPalette(h)), XorLength(h), i);
  }

  /** A new array holding the given bytes. */
  method NewBuffer(bytes: seq<byte>) returns (a: array<byte>)
    ensures fresh(a) && a[..] == bytes
  {
    a := new byte[|bytes|](i requires 0 <= i < |bytes| => bytes[i]);
  }

  /** Reads a sub-image into the encoder. */
  method Read(e: Encoder, s: seq<byte>) returns (fault: Option<Fault>)
    modifies e
    ensures fault.None? <==> Parse(s).Loaded?
    ensures fault.Some? ==> fault.value == Parse(s).fault
    ensures fault.None? ==> e.Contents() == Parse(s).img && fresh(e.xor) && fresh(e.and)
  {
    if |s| < HeaderSize {
      return Some(EndOfStream);
    }
    var h := ReadHeader(s);
    e.header := h;
    var n := ColorsInPalette(h);
    if !Allocatable(QuadSize * n) {
      return Some(BadSize);
    }
    e.colors := ReadQuads(Fill(s, HeaderSize, QuadSize * n));
    var pos := Advance(s, HeaderSize, QuadSize * n);
    var xorLength := XorLength(h);
    if !Allocatable(xorLength) {
      return Some(BadSize);
    }
    e.xor := NewBuffer(Fill(s, pos, xorLength));
    pos := Advance(s, pos, xorLength);
    var andLength := AndLength(h);
    if !Allocatable(andLength) {
      return Some(BadSize);
    }
    e.and := NewBuffer(Fill(s, pos, andLength));
    return None;
  }

  /** Writes the encoder's sub-image: `None` when the colour-table size is
      negative. The colour-table copy reads as many bytes as the header
      announces, so the table must be at least that long. */
  method Write(e: Encoder) returns (r: Option<seq<byte>>)
    requires PaletteByteCount(e.header) <= QuadSize * |e.colors|
    ensures r.Some? <==> PaletteByteCount(e.header) >= 0
    ensures r.Some? ==> r.value == DibBytes(e.Contents())
  {
    var count := PaletteByteCount(e.header);
    if count < 0 {
      return None;
    }
    var out := HeaderBytes(e.header);
    out := out + QuadBytes(e.colors)[..count];
    out := out + e.xor[..];
    out := out + e.and[..];
    return Some(out);
  }
}
