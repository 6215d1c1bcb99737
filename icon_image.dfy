/** One sub-image of an icon: the encoder that holds its header, colour
    table and planes, the size and depth it reports, the two directory
    entries that describe it in .ico files and in icon resources, the probe
    that tells a stored BMP sub-image from a PNG one, and `Set`, which
    builds the sub-image from a bitmap and derives its AND plane. */
module IconImages {
  import opened Bytes
  import opened Wrappers
  import opened Drawing
  import opened ImageEncoder
  import Enums
  import AndMask
  import BmpEncoder

  /** System.Drawing.Size. */
  datatype Size = Size(width: int, height: int)

  /** `Size`: biWidth read as an int, and half of biHeight, which counts the
      rows of both the XOR and the AND plane. */
  function SizeOf(h: Header): (s: Size)
    ensures 0 <= s.height < 0x8000_0000 && 2 * s.height <= h.biHeight <= 2 * s.height + 1
    ensures h.biWidth < 0x8000_0000 ==> s.width == h.biWidth
    ensures h.biWidth >= 0x8000_0000 ==> s.width == h.biWidth - 0x1_0000_0000
  {
    Size(Int32(h.biWidth), Int32(h.biHeight / 2))
  }

  /** `PixelFormat`: the format named by biBitCount; 16 bits read as RGB 565
      and 32 bits as ARGB, and any other depth is undefined. */
  function PixelFormatOf(h: Header): (f: PixelFormat)
    ensures f == Undefined <==> h.biBitCount !in {1, 4, 8, 16, 24, 32}
    ensures f != Undefined ==> BitsOf(f) == h.biBitCount
  {
    if h.biBitCount == 1 then Format1bppIndexed
    else if h.biBitCount == 4 then Format4bppIndexed
    else if h.biBitCount == 8 then Format8bppIndexed
    else if h.biBitCount == 16 then Format16bppRgb565
    else if h.biBitCount == 24 then Format24bppRgb
    else if h.biBitCount == 32 then Format32bppArgb
    else Undefined
  }

  /** The format a depth reads back as: the one each depth stands for. */
  lemma PixelFormatOfBits(f: PixelFormat, h: Header)
    requires f != Undefined && h.biBitCount == BitsOf(f)
    ensures PixelFormatOf(h) ==
      if f.Format16bppRgb555? then Format16bppRgb565
      else if f.Format32bppRgb? || f.Format32bppPArgb? then Format32bppArgb
      else f
  {
  }

  /** `ICONDIRENTRY` as the sub-image reports it for an .ico directory: the
      low bytes of the width, of biHeight and of biClrUsed, the byte count of
      its DIB and offset 0. Unlike the entry of the one-image icon that the
      encoder builds, biHeight is not halved here: the two entries differ
      only in the height byte and the offset. */
  function DirEntryOf(img: Image): (d: DirEntry)
    ensures d == IconEntry(img).(bHeight := d.bHeight, dwImageOffset := 0)
  {
    var h := img.header;
    DirEntry(LowByte(h.biWidth), LowByte(h.biHeight), LowByte(h.biClrUsed), 0, h.biPlanes, h.biBitCount,
      UInt32(HeaderSize + QuadSize * ColorsInPalette(h) + |img.xor| + |img.and|), 0)
  }

  /** GRPICONDIRENTRY: an icon resource's directory entry, which carries a
      resource id where ICONDIRENTRY carries an offset. */
  datatype GroupEntry = GroupEntry(
    bWidth: byte, bHeight: byte, bColorCount: byte, bReserved: byte,
    wPlanes: u16, wBitCount: u16, dwBytesInRes: u32, nID: u16)

  /** `GRPICONDIRENTRY` as the sub-image reports it: byte count
      `IconImageSize` and id 0; it agrees with the ICONDIRENTRY on every
      field the two share. */
  function GroupEntryOf(img: Image): (e: GroupEntry)
    ensures var d := DirEntryOf(img);
      && d.bWidth == e.bWidth && d.bHeight == e.bHeight && d.bColorCount == e.bColorCount
      && d.bReserved == e.bReserved && d.wPlanes == e.wPlanes && d.wBitCount == e.wBitCount
      && d.dwBytesInRes == e.dwBytesInRes
  {
    var h := img.header;
    UIntOfInt(HeaderSize + QuadSize * ColorsInPalette(h) + |img.xor| + |img.and|);
    GroupEntry(LowByte(h.biWidth), LowByte(h.biHeight), LowByte(h.biClrUsed), 0, h.biPlanes, h.biBitCount,
      UInt32(ImageSize(h, |img.xor|, |img.and|)), 0)
  }

  /** The byte count of both entries is `ImageSize`, which is the length of
      the DIB whenever nothing overflows; the reserved byte, the offset and
      the id are 0. */
  lemma EntriesAgree(img: Image)
    ensures var d, e := DirEntryOf(img), GroupEntryOf(img);
      && d.bReserved == 0 && d.dwBytesInRes == UInt32(ImageSize(img.header, |img.xor|, |img.and|))
      && d.dwImageOffset == 0 && e.nID == 0
    ensures 0 <= PaletteByteCount(img.header) <= QuadSize * |img.colors|
      && IsI32(QuadSize * ColorsInPalette(img.header))
      && IsI32(HeaderSize + QuadSize * ColorsInPalette(img.header) + |img.xor| + |img.and|)
      ==> DirEntryOf(img).dwBytesInRes as int == |DibBytes(img)|
  {
    UIntOfInt(HeaderSize + QuadSize * ColorsInPalette(img.header) + |img.xor| + |img.and|);
    if 0 <= PaletteByteCount(img.header) <= QuadSize * |img.colors|
      && IsI32(QuadSize * ColorsInPalette(img.header))
      && IsI32(HeaderSize + QuadSize * ColorsInPalette(img.header) + |img.xor| + |img.and|)
    {
      DibLengthIsImageSize(img);
    }
  }

  /** For an even biHeight the directory entry's height byte is twice the
      one-image icon's, modulo 256. */
  lemma DirEntryHeight(img: Image)
    ensures img.header.biHeight % 2 == 0 ==>
      DirEntryOf(img).bHeight as nat == 2 * IconEntry(img).bHeight as nat % 256
  {
    var m := img.header.biHeight / 2;
    if img.header.biHeight % 2 == 0 {
      DoubleLowByte(m);
    }
  }

  /** Doubling commutes with taking the low byte, modulo 256. */
  lemma DoubleLowByte(m: nat)
    ensures 2 * m % 256 == 2 * (m % 256) % 256
  {
    var q, r := m / 256, m % 256;
    ShiftMod(2 * q, 2 * r);
    assert 2 * m == 256 * (2 * q) + 2 * r;
  }

  /** Adding whole multiples of 256 keeps the low byte. */
  lemma ShiftMod(k: nat, a: nat)
    ensures (256 * k + a) % 256 == a % 256
  {
    var q, r := a / 256, a % 256;
    assert 256 * k + a == 256 * (k + q) + r;
  }

  /** What `GetIconImageFormat` finds at the stream's position, or the end
      of the stream it ran into. */
  datatype Probe = Probed(format: Enums.ImageFormat) | EndOfStream

  /** `GetIconImageFormat` over the bytes from the stream's position on. A
      first byte of 40 (the size of a BITMAPINFOHEADER) means BMP; 0x89
      followed by the little-endian int16 0x4E50 means PNG; anything else
      is unknown. The reader throws when the stream ends before the bytes
      it asks for. The stream's position is put back afterwards, which the
      model captures by reading a value rather than consuming a stream. */
  function GetIconImageFormat(s: seq<byte>): (r: Probe)
    ensures r == Probed(Enums.BMP) <==> |s| >= 1 && s[0] == 40
    ensures r == Probed(Enums.PNG) <==> |s| >= 3 && s[0] == 0x89 && s[1] == 0x50 && s[2] == 0x4E
    ensures r == EndOfStream <==> |s| == 0 || (s[0] == 0x89 && |s| < 3)
  {
    if |s| < 1 then EndOfStream
    else if s[0] == 40 then Probed(Enums.BMP)
    else if s[0] == 0x89 then
      if |s| < 3 then EndOfStream
      else
        PngWord(s);
        if ReadU16Le(s, 1) == 0x4E50 then Probed(Enums.PNG)
        else Probed(Enums.UNKNOWN)
    else Probed(Enums.UNKNOWN)
  }

  /** The int16 0x4E50 read little-endian after the first byte is the
      bytes 'P', 'N'. */
  lemma PngWord(s: seq<byte>)
    requires |s| >= 3
    ensures ReadU16Le(s, 1) == 0x4E50 <==> s[1] == 0x50 && s[2] == 0x4E
  {
    var lo, hi := s[1] as nat, s[2] as nat;
    assert ReadU16Le(s, 1) == lo + 256 * hi;
    if lo + 256 * hi == 0x4E50 {
      assert hi == (lo + 256 * hi) / 256 == 0x4E;
    }
  }

  /** The eight-byte signature that opens every PNG file (section 5.2 of
      the PNG specification, ISO/IEC 15948). */
  const PngSignature: seq<byte> := [0x89, 0x50, 0x4E, 0x47, 0x0D, 0x0A, 0x1A, 0x0A]

  /** A stored PNG sub-image is recognised as PNG. */
  lemma PngProbesAsPng(rest: seq<byte>)
    ensures GetIconImageFormat(PngSignature + rest) == Probed(Enums.PNG)
  {
    var s := PngSignature + rest;
    assert s[0] == 0x89 && s[1] == 0x50 && s[2] == 0x4E;
  }

  /** A written header whose biSize is 40 starts with the byte 40. */
  lemma HeaderFirstByte(h: Header)
    requires h.biSize == HeaderSize
    ensures HeaderBytes(h)[0] == 40
  {
    HeaderFits(h);
    var v := HeaderValues(h);
    var head, tail := FieldBytes(Dword, v[0]), Encode(HeaderKinds[1..], v[1..]);
    assert HeaderBytes(h) == head + tail;
    assert head == U16Le(40) + U16Le(0);
  }

  /** The first byte of a run of bytes is the first byte of its first part. */
  lemma FirstOf(a: seq<byte>, b: seq<byte>)
    requires |a| > 0
    ensures (a + b)[0] == a[0]
  {
  }

  /** A stored BMP sub-image whose header says it is a BITMAPINFOHEADER is
      recognised as BMP. */
  lemma DibProbesAsBmp(img: Image, rest: seq<byte>)
    requires 0 <= PaletteByteCount(img.header) <= QuadSize * |img.colors|
    requires img.header.biSize == HeaderSize
    ensures GetIconImageFormat(DibBytes(img) + rest) == Probed(Enums.BMP)
  {
    var head := HeaderBytes(img.header);
    HeaderFirstByte(img.header);
    FirstOf(head, PaletteBytes(img));
    FirstOf(head + PaletteBytes(img), img.xor);
    FirstOf(head + PaletteBytes(img) + img.xor, img.and);
    FirstOf(DibBytes(img), rest);
  }

  /** The header `Set` writes for a bitmap and its colour table: a
      BITMAPINFOHEADER of one plane, uncompressed, with biHeight counting
      both planes and biClrUsed the table's length; biSizeImage is left 0. */
  function SetHeaderOf(image: Bitmap, palette: seq<RgbQuad>): (h: Header)
    ensures image.width < 0x8000_0000 && image.height < 0x8000_0000 ==> SizeOf(h) == Size(image.width, image.height)
    ensures 0 < |palette| < 0x8000_0000 ==> ColorsInPalette(h) == |palette|
  {
    Header(HeaderSize, UInt32(image.width), UInt32(image.height * 2), 1, UInt16(BitsOf(image.format)),
      Enums.Code(Enums.BMP), 0, 0, 0, UInt32(|palette|), 0)
  }

  /** A C# `(ushort)` conversion. */
  function UInt16(v: nat): (r: u16)
    ensures v < 0x1_0000 ==> r == v
  {
    v % 0x1_0000
  }

  /** The sub-image `Set` builds reports the bitmap's depth, one plane and
      no compression. */
  lemma SetHeaderReadsBack(image: Bitmap, palette: seq<RgbQuad>)
    ensures var h := SetHeaderOf(image, palette);
      && (image.format != Undefined ==> BitsOf(PixelFormatOf(h)) == BitsOf(image.format))
      && h.biPlanes == 1 && h.biCompression == Enums.Code(Enums.BMP) == 0 && h.biClrImportant == 0
  {
    var h := SetHeaderOf(image, palette);
    assert BitsOf(image.format) <= 32;
    if image.format != Undefined {
      PixelFormatOfBits(image.format, h);
    }
  }

  /** The mask `Set` accepts: the image's size, one bit per pixel. */
  predicate MaskFits(image: Bitmap, mask: Bitmap)
  {
    image.width == mask.width && image.height == mask.height && mask.format == Format1bppIndexed
  }

  /** What the derivation of the AND plane works with for a bitmap. */
  function ShapeOf(image: Bitmap, palette: seq<RgbQuad>, key: AndMask.Key): AndMask.Shape
  {
    AndMask.Shape(image.width, BitsOf(image.format), palette, key)
  }

  /** Why `Set` throws: a mask of the wrong size or depth, a 16 bpp image
      (NotSupportedException at its first pixel), or a colour index past
      the end of the colour table (IndexOutOfRangeException). */
  datatype SetError =
    | InvalidMaskBitmap
    | NotSupported(at: AndMask.Pixel)
    | IndexOutOfRange(at: AndMask.Pixel)

  /** The planes the derivation leaves from the XOR plane `plane`: both
      derived in full when no pixel throws, and otherwise derived up to the
      pixel that threw, with a NotSupportedException exactly at 16 bpp. */
  ghost predicate Derived(plane: seq<byte>, g: AndMask.Shape, height: nat, err: Option<SetError>,
    xor: seq<byte>, and: seq<byte>)
    requires |plane| == Area(AndMask.ColorStride(g), height)
  {
    match err
    case None => AndMask.Outcome(plane, g, height, None, xor, and)
    case Some(e) =>
      && !e.InvalidMaskBitmap? && (e.NotSupported? <==> g.bpp == 16)
      && AndMask.Outcome(plane, g, height, Some(e.at), xor, and)
  }

  /** The sub-image `Set` builds when nothing throws: the header and the
      colour table of the bitmap, its pixels as the XOR plane and the mask
      as the AND plane, or, without a mask, both planes derived in full. */
  ghost predicate Built(img: IconImage, image: Bitmap, mask: Option<Bitmap>, key: AndMask.Key, palette: seq<RgbQuad>)
    reads img, img.encoder, img.encoder.xor, img.encoder.and
  {
    BuiltImage(img.encoder.Contents(), image, mask, key, palette)
  }

  /** The same, on the header, colour table and planes as values. */
  ghost predicate BuiltImage(c: Image, image: Bitmap, mask: Option<Bitmap>, key: AndMask.Key, palette: seq<RgbQuad>)
  {
    Builds(image, mask, key, palette) && c == BuiltOf(image, mask, key, palette)
  }

  /** What a successful `Set` needs beyond a mask that fits: without a
      mask, pixels that fill the rows and no pixel that throws. */
  ghost predicate Builds(image: Bitmap, mask: Option<Bitmap>, key: AndMask.Key, palette: seq<RgbQuad>)
  {
    mask.Some? ||
      var g := ShapeOf(image, palette, key);
      |image.scan| == Area(AndMask.ColorStride(g), image.height)
      && AndMask.FirstFault(image.scan, g, image.height) == None
  }

  /** The sub-image itself: with a mask, the bitmap's pixels and the mask's;
      without one, both planes derived in full. */
  ghost function BuiltOf(image: Bitmap, mask: Option<Bitmap>, key: AndMask.Key, palette: seq<RgbQuad>): (c: Image)
    requires Builds(image, mask, key, palette)
    ensures c.header == SetHeaderOf(image, palette).(biSizeImage := UInt32(|image.scan|)) && c.colors == palette
  {
    match mask
    case Some(m) => SetImageOf(image, m, palette)
    case None =>
      var planes := AndMask.Planes(image.scan, ShapeOf(image, palette, key), image.height, None);
      Image(SetHeaderOf(image, palette).(biSizeImage := UInt32(|image.scan|)), palette, planes.0, planes.1)
  }

  /** The AND plane of a sub-image without a mask: a new plane of 1 bpp
      rows, all zero, from which the derivation sets the bits of the
      transparent pixels while it rewrites the XOR plane. */
  method DeriveAnd(xor: array<byte>, g: AndMask.Shape, height: nat) returns (and: array<byte>, err: Option<SetError>)
    requires xor.Length == Area(AndMask.ColorStride(g), height)
    modifies xor
    ensures fresh(and) && Derived(old(xor[..]), g, height, err, xor[..], and[..])
  {
    and := new byte[Drawing.Area(AndMask.MaskStride(g), height)](_ => 0);
    assert and[..] == Zeros(and.Length);
    var stop := AndMask.Derive(xor, and, g, height, xor[..]);
    if stop.None? {
      err := None;
    } else if g.bpp == 16 {
      err := Some(NotSupported(stop.value));
    } else {
      err := Some(IndexOutOfRange(stop.value));
    }
  }

  /** A sub-image. */
  class IconImage {
    var encoder: Encoder

    /** A new sub-image starts with an empty BMP encoder. */
    constructor()
      ensures fresh(encoder) && encoder.format == Enums.BMP
      ensures encoder.Contents() == Image(EmptyHeader, [], [], [])
    {
      encoder := new Encoder(Enums.BMP);
    }

    /** The `IconImageFormat` setter. UNKNOWN is rejected
        (InvalidIconFormatSelectionException); the current format changes
        nothing; any other format gets a new encoder of that kind carrying
        the same header, colour table and planes. */
    method SetFormat(value: Enums.ImageFormat) returns (invalid: bool)
      modifies this
      ensures invalid <==> value == Enums.UNKNOWN
      ensures invalid || value == old(encoder.format) ==> encoder == old(encoder)
      ensures !invalid && value != old(encoder.format) ==>
        && fresh(encoder) && encoder.format == value
        && encoder.xor == old(encoder.xor) && encoder.and == old(encoder.and)
        && encoder.Contents() == old(encoder.Contents())
    {
      if value == Enums.UNKNOWN {
        return true;
      }
      if value == encoder.format {
        return false;
      }
      var e := new Encoder(value);
      e.CopyFrom(encoder);
      encoder := e;
      return false;
    }

    /** `Set`: builds the sub-image from a bitmap whose rows are already in
        the bottom-up order a DIB stores, its colour table, an optional
        mask (flipped the same way) and the transparent colour. A mask of
        the wrong size or depth is rejected before anything changes. The
        header, the colour table and a copy of the pixels are installed;
        the AND plane is a copy of the mask, or else a zeroed plane from
        which the derivation sets the bits of the transparent pixels,
        rewriting XOR bytes as it goes. A derivation that throws leaves the
        planes as far as it got. */
    method Set(image: Bitmap, mask: Option<Bitmap>, key: AndMask.Key, palette: seq<RgbQuad>)
      returns (err: Option<SetError>)
      requires WellFormed(image)
      requires mask.Some? ==> WellFormed(mask.value)
      modifies encoder
      ensures err == Some(InvalidMaskBitmap) <==> mask.Some? && !MaskFits(image, mask.value)
      ensures err == Some(InvalidMaskBitmap) ==> unchanged(encoder)
      ensures err != Some(InvalidMaskBitmap) ==>
        && encoder.header == SetHeaderOf(image, palette).(biSizeImage := UInt32(|image.scan|))
        && encoder.colors == palette && fresh(encoder.xor) && fresh(encoder.and)
      ensures mask.Some? && err.None? ==> encoder.xor[..] == image.scan && encoder.and[..] == mask.value.scan
      ensures err.None? ==> Built(this, image, mask, key, palette)
      ensures mask.None? ==> |image.scan| == Area(AndMask.ColorStride(ShapeOf(image, palette, key)), image.height)
      ensures mask.None? ==>
        Derived(image.scan, ShapeOf(image, palette, key), image.height, err, encoder.xor[..], encoder.and[..])
    {
      if mask.Some? && !MaskFits(image, mask.value) {
        return Some(InvalidMaskBitmap);
      }
      encoder.SetHeader(SetHeaderOf(image, palette));
      encoder.SetColors(palette);
      var xor := BmpEncoder.NewBuffer(image.scan);
      encoder.SetXor(xor);
      var and;
      if mask.None? {
        and, err := DeriveAnd(xor, ShapeOf(image, palette, key), image.height);
      } else {
        and := BmpEncoder.NewBuffer(mask.value.scan);
        err := None;
      }
      encoder.SetAnd(and);
    }
  }

  /** The sub-image `Set` builds from a bitmap and a mask. */
  function SetImageOf(image: Bitmap, mask: Bitmap, palette: seq<RgbQuad>): Image
  {
    Image(SetHeaderOf(image, palette).(biSizeImage := UInt32(|image.scan|)), palette, image.scan, mask.scan)
  }

  /** What `Set` builds from a bitmap and a mask is a sub-image that the
      BMP encoder frames: written out and read back it is the same header,
      colour table and planes, and it is recognised as BMP. */
  lemma SetImageRoundTrip(image: Bitmap, mask: Bitmap, palette: seq<RgbQuad>, rest: seq<byte>)
    requires WellFormed(image) && WellFormed(mask) && MaskFits(image, mask)
    requires image.width + 31 < 0x8000_0000 && image.width * BitsOf(image.format) + 31 < 0x8000_0000
    requires image.height < 0x4000_0000
    requires (0 < |palette| || BitsOf(image.format) > 8)
    requires |palette| < 0x1000_0000 && |image.scan| < 0x8000_0000 && |mask.scan| < 0x8000_0000
    ensures BmpEncoder.Framed(SetImageOf(image, mask, palette))
    ensures BmpEncoder.Parse(DibBytes(SetImageOf(image, mask, palette)) + rest) == BmpEncoder.Loaded(SetImageOf(image, mask, palette))
    ensures GetIconImageFormat(DibBytes(SetImageOf(image, mask, palette)) + rest) == Probed(Enums.BMP)
  {
    var img := SetImageOf(image, mask, palette);
    SetImageFramed(image, mask, palette);
    BmpEncoder.RoundTrip(img, rest);
    DibProbesAsBmp(img, rest);
  }

  lemma SetImageFramed(image: Bitmap, mask: Bitmap, palette: seq<RgbQuad>)
    requires WellFormed(image) && WellFormed(mask) && MaskFits(image, mask)
    requires image.width + 31 < 0x8000_0000 && image.width * BitsOf(image.format) + 31 < 0x8000_0000
    requires image.height < 0x4000_0000
    requires (0 < |palette| || BitsOf(image.format) > 8)
    requires |palette| < 0x1000_0000 && |image.scan| < 0x8000_0000 && |mask.scan| < 0x8000_0000
    ensures BmpEncoder.Framed(SetImageOf(image, mask, palette))
  {
    var h := SetImageOf(image, mask, palette).header;
    assert BitsOf(image.format) <= 32;
    assert h.biWidth == image.width && h.biHeight / 2 == image.height;
    AreaIsProduct(image.stride, image.height);
    AreaIsProduct(mask.stride, mask.height);
  }

  /** The same without a mask: the sub-image whose planes `Set` derived in
      full is framed, read back unchanged and recognised as BMP. */
  lemma DerivedImageRoundTrip(image: Bitmap, key: AndMask.Key, palette: seq<RgbQuad>, rest: seq<byte>)
    requires WellFormed(image) && Builds(image, None, key, palette)
    requires image.width + 31 < 0x8000_0000 && image.width * BitsOf(image.format) + 31 < 0x8000_0000
    requires image.height < 0x4000_0000
    requires (0 < |palette| || BitsOf(image.format) > 8)
    requires |palette| < 0x1000_0000 && |image.scan| < 0x8000_0000
    requires Area(Stride(image.width, 1), image.height) < 0x8000_0000
    ensures BmpEncoder.Framed(BuiltOf(image, None, key, palette))
    ensures BmpEncoder.Parse(DibBytes(BuiltOf(image, None, key, palette)) + rest)
      == BmpEncoder.Loaded(BuiltOf(image, None, key, palette))
    ensures GetIconImageFormat(DibBytes(BuiltOf(image, None, key, palette)) + rest) == Probed(Enums.BMP)
  {
    var img := BuiltOf(image, None, key, palette);
    var h := img.header;
    assert BitsOf(image.format) <= 32;
    assert h.biWidth == image.width && h.biHeight / 2 == image.height;
    AreaIsProduct(image.stride, image.height);
    AreaIsProduct(Stride(image.width, 1), image.height);
    BmpEncoder.RoundTrip(img, rest);
    DibProbesAsBmp(img, rest);
  }
}
