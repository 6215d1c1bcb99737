/** The parts of System.Drawing that the core reads: ARGB colours, pixel
    formats, and a locked bitmap as rows of bytes with an explicit stride. */
module Drawing {
  import opened Bytes

  /** System.Drawing.Color reduced to its four channels. */
  datatype Color = Color(a: byte, r: byte, g: byte, b: byte)

  const TransparentBlack := Color(0, 0, 0, 0)

  /** The three colour channels of a pixel as the quantizers read them. */
  datatype Rgb = Rgb(r: byte, g: byte, b: byte)

  /** The pixel formats the library distinguishes. */
  datatype PixelFormat =
    | Format1bppIndexed | Format4bppIndexed | Format8bppIndexed
    | Format16bppRgb555 | Format16bppRgb565
    | Format24bppRgb
    | Format32bppRgb | Format32bppArgb | Format32bppPArgb
    | Undefined

  /** Bits per pixel of a format (Image.GetPixelFormatSize, and the
      library's Tools.BitsFromPixelFormat, which is assumed to agree). */
  function BitsOf(f: PixelFormat): nat
  {
    match f
    case Format1bppIndexed => 1
    case Format4bppIndexed => 4
    case Format8bppIndexed => 8
    case Format16bppRgb555 | Format16bppRgb565 => 16
    case Format24bppRgb => 24
    case Format32bppRgb | Format32bppArgb | Format32bppPArgb => 32
    case Undefined => 0
  }

  predicate IsIndexed(f: PixelFormat)
  {
    f.Format1bppIndexed? || f.Format4bppIndexed? || f.Format8bppIndexed?
  }

  /** `count` blocks of `size` units each, added up one block at a time:
      the product `size * count`, spelled out so that sizes and offsets
      built from it stay linear terms for the verifier. */
  function Area(size: nat, count: nat): nat
  {
    if count == 0 then 0 else Area(size, count - 1) + size
  }

  lemma {:induction false} AreaIsProduct(size: nat, count: nat)
    ensures Area(size, count) == size * count
  {
    if count > 0 {
      AreaIsProduct(size, count - 1);
    }
  }

  lemma AreaStep(size: nat, count: nat)
    requires count >= 1
    ensures Area(size, count) == size + Area(size, count - 1)
  {
  }

  lemma {:induction false} AreaMono(size: nat, a: nat, b: nat)
    requires a <= b
    ensures Area(size, a) <= Area(size, b)
  {
    if a < b {
      AreaMono(size, a, b - 1);
    }
  }

  /** Block `y` of `count` lies inside them. */
  lemma AreaRow(size: nat, y: nat, count: nat)
    requires y < count
    ensures Area(size, y) + size == Area(size, y + 1) <= Area(size, count)
  {
    AreaMono(size, y + 1, count);
  }

  /** `a` blocks followed by `b` blocks are `a + b` blocks. */
  lemma {:induction false} AreaSplit(size: nat, a: nat, b: nat)
    ensures Area(size, a) + Area(size, b) == Area(size, a + b)
  {
    if b > 0 {
      AreaSplit(size, a, b - 1);
    }
  }

  /** Row size in bytes of a Windows DIB: `((width * bpp + 31) & ~31) >> 3`,
      with the row's bits `width * bpp` counted as `Area(bpp, width)`.
      Clearing the low five bits rounds down to a multiple of 32 bits and the
      shift turns bits into bytes. */
  function Stride(width: nat, bpp: nat): nat
  {
    (Area(bpp, width) + 31) / 32 * 32 / 8
  }

  /** The stride is the least multiple of four bytes that holds `width`
      pixels of `bpp` bits. */
  lemma StrideIsLeastDwordRow(width: nat, bpp: nat)
    ensures Stride(width, bpp) % 4 == 0
    ensures Stride(width, bpp) * 8 >= width * bpp
    ensures forall s: nat :: s % 4 == 0 && s * 8 >= width * bpp ==> s >= Stride(width, bpp)
  {
    AreaIsProduct(bpp, width);
    var n := width * bpp;
    var q := (n + 31) / 32;
    assert Stride(width, bpp) == 4 * q;
    assert 32 * q <= n + 31 < 32 * q + 32;
    forall s: nat | s % 4 == 0 && s * 8 >= n
      ensures s >= 4 * q
    {
      var k := s / 4;
      assert s == 4 * k;
      assert 32 * k >= n;
      assert k >= q;
    }
  }

  /** A bitmap as LockBits exposes it: `height` rows of `stride` bytes,
      row 0 first, plus its colour table. */
  datatype Bitmap = Bitmap(
    width: nat, height: nat, format: PixelFormat,
    stride: nat, scan: seq<byte>, palette: seq<Color>)

  /** What GDI+ guarantees of a locked bitmap: DWORD-aligned rows that hold
      all pixels of the format. */
  predicate WellFormed(bmp: Bitmap)
  {
    && bmp.stride == Stride(bmp.width, BitsOf(bmp.format))
    && |bmp.scan| == Area(bmp.stride, bmp.height)
  }

  /** Byte offset of row `y` inside a scan of the given stride. */
  function RowBase(stride: nat, y: nat): nat { Area(stride, y) }

  lemma RowBounds(stride: nat, height: nat, y: nat, off: nat)
    requires y < height && off < stride
    ensures RowBase(stride, y) + off < Area(stride, height)
  {
    AreaRow(stride, y, height);
  }

  /** Every row of `rows` is `st` bytes long. */
  predicate Uniform(rows: seq<seq<byte>>, st: nat)
  {
    forall i | 0 <= i < |rows| :: |rows[i]| == st
  }

  /** The first `n` rows of `rows`, one after the other. */
  function Layout(rows: seq<seq<byte>>, st: nat, n: nat): (s: seq<byte>)
    requires n <= |rows| && Uniform(rows, st)
    ensures |s| == Area(st, n)
  {
    if n == 0 then []
    else
      AreaStep(st, n);
      Layout(rows, st, n - 1) + rows[n - 1]
  }

  /** Byte `k` of row `y` sits `k` bytes past the row's start in the
      first `n` rows, for every `n` past `y`. */
  lemma {:induction false} LayoutByte(rows: seq<seq<byte>>, st: nat, n: nat, y: nat, k: nat)
    requires y < n <= |rows| && Uniform(rows, st) && k < st
    ensures Area(st, y) + k < |Layout(rows, st, n)|
    ensures Layout(rows, st, n)[Area(st, y) + k] == rows[y][k]
  {
    var front, last := Layout(rows, st, n - 1), rows[n - 1];
    assert Layout(rows, st, n) == front + last;
    AreaRow(st, y, n);
    if y < n - 1 {
      LayoutByte(rows, st, n - 1, y, k);
      ByteInFront(front, last, Area(st, y) + k);
    } else {
      assert y == n - 1;
      ByteInLast(front, last, k);
    }
  }

  lemma ByteInFront(a: seq<byte>, b: seq<byte>, i: nat)
    requires i < |a|
    ensures (a + b)[i] == a[i]
  {
  }

  lemma ByteInLast(a: seq<byte>, b: seq<byte>, k: nat)
    requires k < |b|
    ensures |a| + k < |a + b| && (a + b)[|a| + k] == b[k]
  {
  }

  /** Row `y` is the `st` bytes starting at its offset. */
  lemma LayoutSlice(rows: seq<seq<byte>>, st: nat, n: nat, y: nat)
    requires y < n <= |rows| && Uniform(rows, st)
    ensures Area(st, y) + st <= |Layout(rows, st, n)|
    ensures Layout(rows, st, n)[Area(st, y)..Area(st, y) + st] == rows[y]
  {
    var scan := Layout(rows, st, n);
    AreaRow(st, y, n);
    forall k | 0 <= k < st
      ensures scan[Area(st, y)..Area(st, y) + st][k] == rows[y][k]
    {
      LayoutByte(rows, st, n, y, k);
    }
  }

  /** One more row laid out, one fewer row of zeros after it. */
  lemma LayoutGrow(rows: seq<seq<byte>>, st: nat, y: nat, next: nat, s: seq<byte>)
    requires y < |rows| && Uniform(rows, st) && next == y + 1
    requires s == Layout(rows, st, y) + rows[y] + Zeros(Area(st, |rows| - y - 1))
    ensures s == Layout(rows, st, next) + Zeros(Area(st, |rows| - next))
  {
    LayoutNext(rows, st, y, next);
    assert |rows| - next == |rows| - y - 1;
    Regroup(Layout(rows, st, y), rows[y], Layout(rows, st, next), Zeros(Area(st, |rows| - next)), s);
  }

  /** Moving the middle run of three into the first. */
  lemma Regroup(a: seq<byte>, b: seq<byte>, ab: seq<byte>, z: seq<byte>, s: seq<byte>)
    requires ab == a + b && s == a + b + z
    ensures s == ab + z
  {
  }

  /** One more row of the layout is the layout so far followed by that row. */
  lemma LayoutNext(rows: seq<seq<byte>>, st: nat, y: nat, next: nat)
    requires y < |rows| && Uniform(rows, st) && next == y + 1
    ensures Layout(rows, st, next) == Layout(rows, st, y) + rows[y]
  {
    assert next - 1 == y;
  }

  /** With no rows of zeros left the target is the rows alone. */
  lemma LayoutDone(rows: seq<seq<byte>>, st: nat, s: seq<byte>)
    requires Uniform(rows, st) && s == Layout(rows, st, |rows|) + Zeros(Area(st, |rows| - |rows|))
    ensures s == Layout(rows, st, |rows|)
  {
    assert Zeros(Area(st, 0)) == [];
  }

  /** The layout of the first `n` rows depends on those rows only. */
  lemma {:induction false} LayoutPrefix(a: seq<seq<byte>>, b: seq<seq<byte>>, st: nat, n: nat)
    requires n <= |a| && n <= |b| && Uniform(a, st) && Uniform(b, st) && a[..n] == b[..n]
    ensures Layout(a, st, n) == Layout(b, st, n)
  {
    if n > 0 {
      assert a[n - 1] == a[..n][n - 1] == b[..n][n - 1] == b[n - 1];
      assert a[..n - 1] == a[..n][..n - 1] == b[..n][..n - 1] == b[..n - 1];
      LayoutPrefix(a, b, st, n - 1);
    }
  }
}
