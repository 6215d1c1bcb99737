/** The sub-image record that every encoder holds: a BITMAPINFOHEADER, a
    colour table of RGBQUADs, the XOR (colour) plane and the AND
    (transparency) plane, together with the size arithmetic and the byte
    image of a one-entry .ico file that the `Icon` getter builds from them. */
module ImageEncoder {
  import opened Bytes
  import opened Wrappers
  import Enums

  /** sizeof(BITMAPINFOHEADER), sizeof(RGBQUAD), sizeof(ICONDIR) and
      sizeof(ICONDIRENTRY) in the sequential layout the structures use. */
  const HeaderSize := 40
  const QuadSize := 4
  const DirSize := 6
  const EntrySize := 16

  /** BITMAPINFOHEADER, each field at its Win32 width. */
  datatype Header = Header(
    biSize: u32, biWidth: u32, biHeight: u32, biPlanes: u16, biBitCount: u16,
    biCompression: u32, biSizeImage: u32, biXPelsPerMeter: i32, biYPelsPerMeter: i32,
    biClrUsed: u32, biClrImportant: u32)

  /** The zero-initialised header of a freshly created encoder. */
  const EmptyHeader := Header(0, 0, 0, 0, 0, 0, 0, 0, 0, 0, 0)

  /** The widths of the header's fields, in their stored order. */
  const HeaderKinds := [Dword, Dword, Dword, Word, Word, Dword, Dword, Dword, Dword, Dword, Dword]

  /** The header's field values in their stored order; the two resolutions
      are signed and stored as their two's-complement bits. */
  function HeaderValues(h: Header): seq<nat>
  {
    [h.biSize, h.biWidth, h.biHeight, h.biPlanes, h.biBitCount, h.biCompression, h.biSizeImage,
     UInt32(h.biXPelsPerMeter), UInt32(h.biYPelsPerMeter), h.biClrUsed, h.biClrImportant]
  }

  lemma HeaderFits(h: Header)
    ensures Fits(HeaderKinds, HeaderValues(h))
  {
    var v := HeaderValues(h);
    forall i | 0 <= i < 11
      ensures v[i] < Bound(HeaderKinds[i])
    {
      if i == 3 || i == 4 {
        assert HeaderKinds[i] == Word;
      } else {
        assert HeaderKinds[i] == Dword;
      }
    }
  }

  /** The header as the 40 little-endian bytes it occupies in a DIB. */
  function HeaderBytes(h: Header): (s: seq<byte>)
    ensures |s| == HeaderSize
  {
    HeaderFits(h);
    HeaderKindsSize();
    Encode(HeaderKinds, HeaderValues(h))
  }

  /** The header at the front of a stream. */
  function ReadHeader(s: seq<byte>): Header
    requires HeaderSize <= |s|
  {
    HeaderKindsSize();
    HeaderOf(Decode(s, HeaderKinds))
  }

  /** The header whose stored field values are `v`. */
  function HeaderOf(v: seq<nat>): Header
    requires Fits(HeaderKinds, v)
  {
    HeaderBounds(v);
    var xpels, ypels := Int32(v[7]), Int32(v[8]);
    Header(v[0], v[1], v[2], v[3], v[4], v[5], v[6], xpels, ypels, v[9], v[10])
  }

  lemma HeaderKindsSize()
    ensures Size(HeaderKinds) == HeaderSize
  {
  }

  lemma HeaderBounds(v: seq<nat>)
    requires Fits(HeaderKinds, v)
    ensures |v| == 11 && IsU32(v[0]) && IsU32(v[1]) && IsU32(v[2]) && IsU16(v[3]) && IsU16(v[4])
    ensures IsU32(v[5]) && IsU32(v[6]) && IsU32(v[9]) && IsU32(v[10])
  {
    assert v[3] < Bound(HeaderKinds[3]) && v[4] < Bound(HeaderKinds[4]);
  }

  /** Reading back a written header, whatever follows it, gives the same header. */
  lemma HeaderRoundTrip(h: Header, rest: seq<byte>)
    ensures ReadHeader(HeaderBytes(h) + rest) == h
  {
    HeaderFits(h);
    DecodeEncode(HeaderKinds, HeaderValues(h), rest);
    IntOfUInt(h.biXPelsPerMeter);
    IntOfUInt(h.biYPelsPerMeter);
  }

  /** RGBQUAD: one colour-table entry, stored blue first. */
  datatype RgbQuad = RgbQuad(blue: byte, green: byte, red: byte, reserved: byte)

  /** A colour table as the bytes of its pinned array. */
  function QuadBytes(colors: seq<RgbQuad>): (s: seq<byte>)
    ensures |s| == QuadSize * |colors|
  {
    if colors == [] then []
    else [colors[0].blue, colors[0].green, colors[0].red, colors[0].reserved] + QuadBytes(colors[1..])
  }

  /** The entries a byte buffer holds, four bytes each (a trailing partial
      entry is dropped). */
  function ReadQuads(s: seq<byte>): (colors: seq<RgbQuad>)
    ensures |colors| == |s| / QuadSize
  {
    if |s| < QuadSize then [] else [RgbQuad(s[0], s[1], s[2], s[3])] + ReadQuads(s[4..])
  }

  lemma {:induction false} QuadsRoundTrip(colors: seq<RgbQuad>)
    ensures ReadQuads(QuadBytes(colors)) == colors
  {
    if colors != [] {
      var s := QuadBytes(colors);
      assert s[4..] == QuadBytes(colors[1..]);
      QuadsRoundTrip(colors[1..]);
    }
  }

  /** What an encoder holds, as values. */
  datatype Image = Image(header: Header, colors: seq<RgbQuad>, xor: seq<byte>, and: seq<byte>)

  /** `ColorsInPalette`: biClrUsed when set, else 2^biBitCount up to 8 bits,
      else 0, converted to `int` (so a biClrUsed of 2^31 or more reads as
      negative). */
  function ColorsInPalette(h: Header): (n: i32)
    ensures 0 < h.biClrUsed < 0x8000_0000 ==> n == h.biClrUsed
    ensures 0x8000_0000 <= h.biClrUsed ==> n < 0 && n + 0x1_0000_0000 == h.biClrUsed
    ensures h.biClrUsed == 0 && h.biBitCount <= 8 ==> n == Pow2(h.biBitCount) && n <= 256
    ensures h.biClrUsed == 0 && h.biBitCount > 8 ==> n == 0
  {
    if h.biClrUsed != 0 then Int32(h.biClrUsed)
    else if h.biBitCount <= 8 then Pow2Small(h.biBitCount); Pow2(h.biBitCount)
    else 0
  }

  lemma {:induction false} Pow2Small(n: nat)
    requires n <= 8
    ensures 1 <= Pow2(n) <= 256 && Pow2(n) <= Pow2(8)
  {
    if n > 0 {
      Pow2Small(n - 1);
    }
  }

  /** `ImageSize`: header, colour table, XOR and AND, in `int` arithmetic. */
  function ImageSize(h: Header, xorLength: nat, andLength: nat): (n: i32)
    ensures IsI32(HeaderSize + QuadSize * ColorsInPalette(h) + xorLength + andLength)
      ==> n == HeaderSize + QuadSize * ColorsInPalette(h) + xorLength + andLength
  {
    Int32(HeaderSize + QuadSize * ColorsInPalette(h) + xorLength + andLength)
  }

  /** The byte count of the colour-table buffer: `sizeof(RGBQUAD) * ColorsInPalette`. */
  function PaletteByteCount(h: Header): (n: i32)
    ensures IsI32(QuadSize * ColorsInPalette(h)) ==> n == QuadSize * ColorsInPalette(h)
  {
    Int32(QuadSize * ColorsInPalette(h))
  }

  /** The colour-table bytes copied out of the pinned array. The copy reads
      `PaletteByteCount` bytes whatever the array's length, so the caller must
      supply an array at least that long. */
  function PaletteBytes(img: Image): (s: seq<byte>)
    requires 0 <= PaletteByteCount(img.header) <= QuadSize * |img.colors|
    ensures |s| == PaletteByteCount(img.header)
  {
    QuadBytes(img.colors)[..PaletteByteCount(img.header)]
  }

  /** The DIB of a sub-image: header, colour table, XOR plane, AND plane. */
  function DibBytes(img: Image): (s: seq<byte>)
    requires 0 <= PaletteByteCount(img.header) <= QuadSize * |img.colors|
    ensures |s| == HeaderSize + PaletteByteCount(img.header) + |img.xor| + |img.and|
  {
    HeaderBytes(img.header) + PaletteBytes(img) + img.xor + img.and
  }

  /** When no `int` overflows, the size recorded for a sub-image is the
      number of bytes its DIB occupies. */
  lemma DibLengthIsImageSize(img: Image)
    requires 0 <= PaletteByteCount(img.header) <= QuadSize * |img.colors|
    requires IsI32(QuadSize * ColorsInPalette(img.header))
    requires IsI32(HeaderSize + QuadSize * ColorsInPalette(img.header) + |img.xor| + |img.and|)
    ensures |DibBytes(img)| == ImageSize(img.header, |img.xor|, |img.and|)
  {
  }

  /** ICONDIRENTRY. */
  datatype DirEntry = DirEntry(
    bWidth: byte, bHeight: byte, bColorCount: byte, bReserved: byte,
    wPlanes: u16, wBitCount: u16, dwBytesInRes: u32, dwImageOffset: u32)

  /** A C# `(byte)` conversion: the low eight bits. */
  function LowByte(v: nat): (b: byte)
    ensures b as nat == v % 256
  {
    ByteOfNat(v % 256);
    (v % 256) as byte
  }

  /** The field widths of an ICONDIR followed by one ICONDIRENTRY. */
  const IconHeadKinds := [Word, Word, Word, Byte, Byte, Byte, Byte, Word, Word, Dword, Dword]

  /** The field values of an ICONDIR with reserved 0, type 1 (icon) and
      count 1, followed by the given entry. */
  function IconHeadValues(e: DirEntry): seq<nat>
  {
    [0, 1, 1, e.bWidth as nat, e.bHeight as nat, e.bColorCount as nat, e.bReserved as nat,
     e.wPlanes, e.wBitCount, e.dwBytesInRes, e.dwImageOffset]
  }

  lemma IconHeadFits(e: DirEntry)
    ensures Fits(IconHeadKinds, IconHeadValues(e))
  {
    var v := IconHeadValues(e);
    forall i | 0 <= i < 11
      ensures v[i] < Bound(IconHeadKinds[i])
    {
      if 3 <= i < 7 {
        assert IconHeadKinds[i] == Byte;
      } else if i < 9 {
        assert IconHeadKinds[i] == Word;
      } else {
        assert IconHeadKinds[i] == Dword;
      }
    }
  }

  lemma IconHeadKindsSize()
    ensures Size(IconHeadKinds) == DirSize + EntrySize
  {
  }

  /** The ICONDIR and the entry as the 22 bytes that open the file. */
  function IconHeadBytes(e: DirEntry): (s: seq<byte>)
    ensures |s| == DirSize + EntrySize
  {
    IconHeadFits(e);
    IconHeadKindsSize();
    Encode(IconHeadKinds, IconHeadValues(e))
  }

  /** The directory entry the `Icon` getter writes: it halves biHeight, and
      its image starts right after the directory. */
  function IconEntry(img: Image): DirEntry
  {
    var h := img.header;
    DirEntry(
      LowByte(h.biWidth), LowByte(h.biHeight / 2), LowByte(h.biClrUsed), 0, h.biPlanes, h.biBitCount,
      UInt32(HeaderSize + QuadSize * ColorsInPalette(h) + |img.xor| + |img.and|), DirSize + EntrySize)
  }

  /** The bytes the `Icon` getter hands to the Icon constructor; `None` when
      the colour-table buffer size is negative (an OverflowException). */
  function IconBytes(img: Image): (r: Option<seq<byte>>)
    requires PaletteByteCount(img.header) <= QuadSize * |img.colors|
    ensures r.Some? <==> PaletteByteCount(img.header) >= 0
  {
    if PaletteByteCount(img.header) < 0 then None
    else Some(IconHeadBytes(IconEntry(img)) + DibBytes(img))
  }

  /** The layout of the one-image .ico: an ICONDIR with count 1, an entry
      holding the low bytes of the width, of half the header height and of
      biClrUsed, whose byte count is `ImageSize` and whose offset is 22, then
      the DIB at offset 22. */
  lemma IconLayout(img: Image)
    requires 0 <= PaletteByteCount(img.header) <= QuadSize * |img.colors|
    ensures var s, h := IconBytes(img).value, img.header;
      && |s| == DirSize + EntrySize + |DibBytes(img)|
      && Decode(s, IconHeadKinds) == [0, 1, 1, h.biWidth % 256, h.biHeight / 2 % 256, h.biClrUsed % 256,
           0, h.biPlanes, h.biBitCount, UInt32(ImageSize(h, |img.xor|, |img.and|)), DirSize + EntrySize]
      && s[DirSize + EntrySize..] == DibBytes(img)
  {
    var e, dib := IconEntry(img), DibBytes(img);
    var s := IconHeadBytes(e) + dib;
    assert IconBytes(img).value == s;
    IconHeadFits(e);
    IconHeadKindsSize();
    DecodeEncode(IconHeadKinds, IconHeadValues(e), dib);
    EntryValues(img);
  }

  /** The values the entry of `IconBytes` holds. */
  lemma EntryValues(img: Image)
    ensures var h := img.header;
      IconHeadValues(IconEntry(img)) == [0, 1, 1, h.biWidth % 256, h.biHeight / 2 % 256, h.biClrUsed % 256,
        0, h.biPlanes, h.biBitCount, UInt32(ImageSize(h, |img.xor|, |img.and|)), DirSize + EntrySize]
  {
    UIntOfInt(HeaderSize + QuadSize * ColorsInPalette(img.header) + |img.xor| + |img.and|);
  }

  /** An encoder: the base class of the BMP and PNG encoders, which differ
      only in the format they report and in how they read and write. */
  class Encoder {
    const format: Enums.ImageFormat
    var header: Header
    var colors: seq<RgbQuad>
    var xor: array<byte>
    var and: array<byte>

    /** A new encoder of the given kind (the BMP or PNG subclass). */
    constructor(format: Enums.ImageFormat)
      requires format != Enums.UNKNOWN
      ensures this.format == format && header == EmptyHeader && colors == []
      ensures xor.Length == 0 && and.Length == 0
    {
      this.format := format;
      header := EmptyHeader;
      colors := [];
      xor := new byte[0];
      and := new byte[0];
    }

    function Contents(): Image
      reads this, xor, and
    {
      Image(header, colors, xor[..], and[..])
    }

    method SetHeader(h: Header)
      modifies this
      ensures header == h
      ensures colors == old(colors) && xor == old(xor) && and == old(and)
    {
      header := h;
    }

    method SetColors(c: seq<RgbQuad>)
      modifies this
      ensures colors == c
      ensures header == old(header) && xor == old(xor) && and == old(and)
    {
      colors := c;
    }

    /** Installing an XOR plane also records its length as biSizeImage. */
    method SetXor(v: array<byte>)
      modifies this
      ensures xor == v && header == old(header).(biSizeImage := UInt32(v.Length))
      ensures colors == old(colors) && and == old(and)
    {
      header := header.(biSizeImage := UInt32(v.Length));
      xor := v;
    }

    method SetAnd(v: array<byte>)
      modifies this
      ensures and == v
      ensures header == old(header) && colors == old(colors) && xor == old(xor)
    {
      and := v;
    }

    /** Takes over another encoder's header, colour table and planes; the
        planes are shared, not copied. */
    method CopyFrom(other: Encoder)
      modifies this
      ensures header == old(other.header) && colors == old(other.colors)
      ensures xor == old(other.xor) && and == old(other.and)
    {
      header, colors, xor, and := other.header, other.colors, other.xor, other.and;
    }
  }
}
