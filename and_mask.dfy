/** How `IconImage.Set` derives the AND (transparency) plane of a sub-image
    from its XOR (colour) plane when no mask bitmap is given: every pixel
    whose colour is the transparent colour gets its AND bit set, and at
    some depths its XOR bytes are cleared as well. The derivation works in
    place on the two planes, pixel by pixel, row by row. */
module AndMask {
  import opened Bytes
  import opened Wrappers
  import opened Drawing
  import opened ImageEncoder

  /** The transparent colour `Set` is given. `KnownTransparent` is the named
      colour `Color.Transparent` (ARGB 0, 255, 255, 255), which .NET's colour
      equality tells apart from an unnamed colour with the same channels. */
  datatype Key = KnownTransparent | Custom(color: Color)

  /** The channels of the transparent colour. */
  function KeyColor(k: Key): Color
  {
    match k
    case KnownTransparent => Color(0, 255, 255, 255)
    case Custom(c) => c
  }

  /** `Tools.CompareRGBQUADToColor`: a colour-table entry and a colour agree
      on red, green and blue. */
  predicate SameRgb(q: RgbQuad, c: Color)
  {
    q.red == c.r && q.green == c.g && q.blue == c.b
  }

  /** What the derivation depends on: the width in pixels, the depth, the
      colour table and the transparent colour. */
  datatype Shape = Shape(width: nat, bpp: nat, colors: seq<RgbQuad>, key: Key)

  /** The XOR plane's row size and the AND plane's row size. */
  function ColorStride(g: Shape): nat { Stride(g.width, g.bpp) }

  function MaskStride(g: Shape): nat { Stride(g.width, 1) }

  /** Byte `i` of a row, or 0 past its end (the derivation only reads inside
      the row; the default keeps the specification total). */
  function At(row: seq<byte>, i: int): byte
  {
    if 0 <= i < |row| then row[i] else 0
  }

  /** The colour-table index of pixel `x` at 4 bpp (high nibble for even
      `x`) and at 8 bpp. */
  function PaletteIndex(row: seq<byte>, bpp: nat, x: int): nat
  {
    if bpp == 4 then Nibble(At(row, x / 2), x) as nat
    else At(row, x) as nat
  }

  /** Pixel `x` stops the derivation: 16 bpp is not supported, and an
      index past the end of the colour table throws. */
  predicate PixelFault(row: seq<byte>, g: Shape, x: int)
  {
    g.bpp == 16 || ((g.bpp == 4 || g.bpp == 8) && PaletteIndex(row, g.bpp, x) >= |g.colors|)
  }

  /** None of the first `n` pixels of the row stops the derivation. */
  predicate RowClean(row: seq<byte>, g: Shape, n: nat)
  {
    forall x | 0 <= x < n :: !PixelFault(row, g, x)
  }

  /** A pixel that does not throw extends the clean prefix. */
  lemma CleanStep(row: seq<byte>, g: Shape, x: nat)
    requires RowClean(row, g, x) && !PixelFault(row, g, x)
    ensures RowClean(row, g, x + 1)
  {
  }

  /** Pixel `x` of the original row has the transparent colour, in the
      sense each depth tests it:
      - 4 and 8 bpp: its colour-table entry has the key's red, green, blue;
      - 24 bpp: the colour made from its three bytes, taken as red, green,
        blue in stored order, equals the key (alpha is 0 on both sides);
      - 32 bpp with `Color.Transparent`: its alpha byte is 0;
      - 32 bpp otherwise: its blue, green and red bytes are the key's. */
  predicate Matches(row: seq<byte>, g: Shape, x: int)
  {
    var k := KeyColor(g.key);
    if g.bpp == 4 || g.bpp == 8 then
      var i := PaletteIndex(row, g.bpp, x);
      i < |g.colors| && SameRgb(g.colors[i], k)
    else if g.bpp == 24 then
      At(row, 3 * x) == k.r && At(row, 3 * x + 1) == k.g && At(row, 3 * x + 2) == k.b
    else if g.bpp == 32 then
      if g.key.KnownTransparent? then At(row, 4 * x + 3) == 0
      else At(row, 4 * x) == k.b && At(row, 4 * x + 1) == k.g && At(row, 4 * x + 2) == k.r
    else false
  }

  /** Bit `j` of a byte, counted from the most significant end:
      `0x80 >> (x & 7)` for pixel `x`, listed value by value. */
  function Mask(j: nat): (m: byte)
    requires j < 8
  {
    match j
    case 0 => 0x80
    case 1 => 0x40
    case 2 => 0x20
    case 3 => 0x10
    case 4 => 0x08
    case 5 => 0x04
    case 6 => 0x02
    case _ => 0x01
  }

  /** The AND byte `k` of a row once the first `n` of its eight pixels
      have been seen: the OR of the masks of the matching ones. */
  function MaskBits(row: seq<byte>, g: Shape, k: int, n: nat): byte
    requires n <= 8
  {
    if n == 0 then 0
    else MaskBits(row, g, k, n - 1) | (if Matches(row, g, 8 * k + n - 1) then Mask(n - 1) else 0)
  }

  /** How many of the eight pixels of AND byte `k` lie before pixel `n`. */
  function Seen(n: nat, k: int): (m: nat)
    ensures m <= 8
  {
    if n <= 8 * k then 0 else if n - 8 * k >= 8 then 8 else n - 8 * k
  }

  /** AND byte `k` of a row after its first `n` pixels: at 1 bpp a copy of
      the XOR byte once one of its pixels has been seen, at other depths
      the mask bits of the matching pixels seen so far. */
  function AndByte(row: seq<byte>, g: Shape, n: nat, k: int): byte
  {
    if g.bpp == 1 then (if 8 * k < n then At(row, k) else 0)
    else MaskBits(row, g, k, Seen(n, k))
  }

  /** XOR byte `c` of a row after its first `n` pixels:
      - 4 bpp: the nibble of each matching pixel is cleared;
      - 8 bpp: the byte of a matching pixel is cleared;
      - 32 bpp with a colour other than `Color.Transparent`: a matching
        pixel's blue, green and red are cleared, and any other pixel's
        alpha is set to 255;
      - otherwise the byte is unchanged. */
  function XorByte(row: seq<byte>, g: Shape, n: nat, c: int): byte
  {
    var b := At(row, c);
    if g.bpp == 4 then
      Nibbles(b, 2 * c < n && Matches(row, g, 2 * c), 2 * c + 1 < n && Matches(row, g, 2 * c + 1))
    else if g.bpp == 8 then
      if c < n && Matches(row, g, c) then 0 else b
    else if g.bpp == 32 && !g.key.KnownTransparent? && c / 4 < n then
      if Matches(row, g, c / 4) then (if c % 4 < 3 then 0 else b)
      else (if c % 4 == 3 then 255 else b)
    else b
  }

  /** A 4 bpp byte with its high nibble, its low nibble, or both cleared. */
  function Nibbles(b: byte, clearHigh: bool, clearLow: bool): byte
  {
    b & (if clearHigh then 0x0F else 0xFF) & (if clearLow then 0xF0 else 0xFF)
  }

  lemma NibblesSteps(b: byte, h: bool, m: bool)
    ensures Nibbles(b, false, false) == b
    ensures Nibbles(b, m, false) == if m then b & 0x0F else b
    ensures Nibbles(b, h, m) == if m then Nibbles(b, h, false) & 0xF0 else Nibbles(b, h, false)
    ensures Nibbles(b, h, false) & 0x0F == b & 0x0F
  {
  }

  /** A row of the XOR plane and a row of the AND plane after the first
      `n` pixels. */
  function XorRow(row: seq<byte>, g: Shape, n: nat): (r: seq<byte>)
    ensures |r| == |row|
  {
    seq(|row|, c => XorByte(row, g, n, c))
  }

  function AndRow(row: seq<byte>, g: Shape, n: nat): (r: seq<byte>)
    ensures |r| == MaskStride(g)
  {
    seq(MaskStride(g), k => AndByte(row, g, n, k))
  }

  /** Where XOR bytes are never rewritten (1, 16 and 24 bpp, and 32 bpp
      with `Color.Transparent`), the XOR row stays as it was. */
  lemma XorKept(row: seq<byte>, g: Shape, n: nat)
    requires g.bpp != 4 && g.bpp != 8 && (g.bpp == 32 ==> g.key.KnownTransparent?)
    ensures XorRow(row, g, n) == row
  {
  }

  /** The bytes pixel `x` is read from are still the original ones when
      its turn comes. */
  lemma Current(row: seq<byte>, g: Shape, x: nat)
    ensures g.bpp == 4 && x / 2 < |row| ==>
      var b := XorRow(row, g, x)[x / 2];
      Nibble(b, x) as nat == PaletteIndex(row, g.bpp, x)
    ensures g.bpp == 8 && x < |row| ==> XorRow(row, g, x)[x] == row[x]
    ensures g.bpp == 32 && 4 * x + 3 < |row| ==>
      && XorRow(row, g, x)[4 * x] == row[4 * x] && XorRow(row, g, x)[4 * x + 1] == row[4 * x + 1]
      && XorRow(row, g, x)[4 * x + 2] == row[4 * x + 2] && XorRow(row, g, x)[4 * x + 3] == row[4 * x + 3]
  {
    if g.bpp == 4 && x / 2 < |row| {
      var c := x / 2;
      var b := row[c];
      var h := Matches(row, g, 2 * c);
      NibblesSteps(b, h, false);
      if x % 2 == 0 {
        assert 2 * c == x;
        assert XorRow(row, g, x)[c] == Nibbles(b, false, false);
      } else {
        assert 2 * c + 1 == x;
        assert XorRow(row, g, x)[c] == Nibbles(b, h, false);
      }
    }
  }

  /** Pixel `x` at 4 bpp: a match clears its nibble. */
  lemma Xor4Step(row: seq<byte>, g: Shape, x: nat)
    requires g.bpp == 4 && x / 2 < |row|
    ensures var cur, c := XorRow(row, g, x), x / 2;
      XorRow(row, g, x + 1) ==
        if Matches(row, g, x) then cur[c := cur[c] & KeepOther(x)] else cur
  {
    var cur, next, c := XorRow(row, g, x), XorRow(row, g, x + 1), x / 2;
    forall i | 0 <= i < |row| && i != c
      ensures next[i] == cur[i]
    {
      Xor4Other(row, g, x, i);
    }
    SameExcept(cur, next, c);
    Xor4Byte(row, g, x);
  }

  /** Two rows of equal length that differ at most at byte `c`. */
  lemma SameExcept(cur: seq<byte>, next: seq<byte>, c: nat)
    requires |cur| == |next| && c < |cur|
    requires forall i | 0 <= i < |cur| && i != c :: next[i] == cur[i]
    ensures next == cur[c := next[c]]
    ensures next[c] == cur[c] ==> next == cur
  {
    assert next == cur[c := next[c]];
  }

  /** Pixel `x` at 4 bpp leaves every other byte of the row alone. */
  lemma Xor4Other(row: seq<byte>, g: Shape, x: nat, i: nat)
    requires g.bpp == 4 && i < |row| && i != x / 2
    ensures XorRow(row, g, x + 1)[i] == XorRow(row, g, x)[i]
  {
    assert 2 * i != x && 2 * i + 1 != x;
  }

  /** The byte holding pixel `x` at 4 bpp, before and after the pixel. */
  lemma Xor4Byte(row: seq<byte>, g: Shape, x: nat)
    requires g.bpp == 4 && x / 2 < |row|
    ensures var c := x / 2;
      XorRow(row, g, x + 1)[c] ==
        if Matches(row, g, x) then XorRow(row, g, x)[c] & KeepOther(x)
        else XorRow(row, g, x)[c]
  {
    var c := x / 2;
    var b := row[c];
    var m := Matches(row, g, x);
    var h := Matches(row, g, 2 * c);
    NibblesSteps(b, h, m);
    if x % 2 == 0 {
      assert 2 * c == x;
      assert XorRow(row, g, x)[c] == Nibbles(b, false, false);
      assert XorRow(row, g, x + 1)[c] == Nibbles(b, m, false);
    } else {
      assert 2 * c + 1 == x;
      assert XorRow(row, g, x)[c] == Nibbles(b, h, false);
      assert XorRow(row, g, x + 1)[c] == Nibbles(b, h, m);
    }
  }

  /** Pixel `x` at 8 bpp: a match clears its byte. */
  lemma Xor8Step(row: seq<byte>, g: Shape, x: nat)
    requires g.bpp == 8 && x < |row|
    ensures var cur := XorRow(row, g, x);
      XorRow(row, g, x + 1) == if Matches(row, g, x) then cur[x := 0] else cur
  {
  }

  /** Pixel `x` at 32 bpp with a colour other than `Color.Transparent`: a
      match clears blue, green and red, any other pixel gets alpha 255. */
  lemma Xor32Step(row: seq<byte>, g: Shape, x: nat)
    requires g.bpp == 32 && !g.key.KnownTransparent? && 4 * x + 3 < |row|
    ensures var cur := XorRow(row, g, x);
      XorRow(row, g, x + 1) ==
        if Matches(row, g, x) then cur[4 * x := 0][4 * x + 1 := 0][4 * x + 2 := 0] else cur[4 * x + 3 := 255]
  {
    var cur, next := XorRow(row, g, x), XorRow(row, g, x + 1);
    forall i | 0 <= i < |row|
      ensures i / 4 == x <==> 4 * x <= i < 4 * x + 4
    {
    }
  }

  /** Pixel `x` at 1 bpp: its AND byte becomes a copy of its XOR byte. */
  lemma And1Step(row: seq<byte>, g: Shape, x: nat)
    requires g.bpp == 1 && x / 8 < MaskStride(g)
    ensures AndRow(row, g, x + 1) == AndRow(row, g, x)[x / 8 := At(row, x / 8)]
  {
  }

  /** Pixel `x` at any other depth: a match sets its bit in its AND byte. */
  lemma AndBitStep(row: seq<byte>, g: Shape, x: nat)
    requires g.bpp != 1 && x / 8 < MaskStride(g)
    ensures var cur, k := AndRow(row, g, x), x / 8;
      AndRow(row, g, x + 1) == if Matches(row, g, x) then cur[k := cur[k] | Mask(x % 8)] else cur
  {
    var cur, next, k := AndRow(row, g, x), AndRow(row, g, x + 1), x / 8;
    forall i | 0 <= i < MaskStride(g) && i != k
      ensures next[i] == cur[i]
    {
      assert Seen(x + 1, i) == Seen(x, i);
    }
    SameExcept(cur, next, k);
    AndBitByte(row, g, x);
  }

  /** The AND byte holding pixel `x`, before and after the pixel. */
  lemma AndBitByte(row: seq<byte>, g: Shape, x: nat)
    requires g.bpp != 1 && x / 8 < MaskStride(g)
    ensures var k := x / 8;
      AndRow(row, g, x + 1)[k] ==
        if Matches(row, g, x) then AndRow(row, g, x)[k] | Mask(x % 8) else AndRow(row, g, x)[k]
  {
    AndBitAt(row, g, x, x / 8, x % 8);
  }

  /** The same, with pixel `x` written as `8k + n`. */
  lemma AndBitAt(row: seq<byte>, g: Shape, x: nat, k: nat, n: nat)
    requires g.bpp != 1 && n < 8 && k < MaskStride(g) && x == 8 * k + n
    ensures AndRow(row, g, x + 1)[k] ==
      if Matches(row, g, x) then AndRow(row, g, x)[k] | Mask(n) else AndRow(row, g, x)[k]
  {
    assert Seen(x, k) == n && Seen(x + 1, k) == n + 1;
    MaskBitsStep(row, g, k, n);
  }

  /** One more pixel of an AND byte: its bit is set when it matches. */
  lemma MaskBitsStep(row: seq<byte>, g: Shape, k: int, n: nat)
    requires n < 8
    ensures MaskBits(row, g, k, n + 1) ==
      if Matches(row, g, 8 * k + n) then MaskBits(row, g, k, n) | Mask(n) else MaskBits(row, g, k, n)
  {
    var before := MaskBits(row, g, k, n);
    if !Matches(row, g, 8 * k + n) {
      OrZero(before);
    }
  }

  lemma OrZero(b: byte)
    ensures b | 0 == b
  {
  }

  /** The AND byte of a pixel lies inside its row. */
  lemma InMask(g: Shape, x: nat)
    requires x < g.width
    ensures x / 8 < MaskStride(g)
  {
    StrideHolds(g.width, 1, x);
  }

  /** The byte of pixel `x` at 4 bpp lies inside its row. */
  lemma In4(g: Shape, x: nat)
    requires g.bpp == 4 && x < g.width
    ensures x / 2 < ColorStride(g)
  {
    StrideHolds(g.width, 4, x);
  }

  /** The byte of pixel `x` at 8 bpp lies inside its row. */
  lemma In8(g: Shape, x: nat)
    requires g.bpp == 8 && x < g.width
    ensures x < ColorStride(g)
  {
    StrideHolds(g.width, 8, x);
  }

  /** The three bytes of pixel `x` at 24 bpp lie inside its row. */
  lemma In24(g: Shape, x: nat)
    requires g.bpp == 24 && x < g.width
    ensures 3 * x + 2 < ColorStride(g)
  {
    StrideHolds(g.width, 24, x);
  }

  /** The four bytes of pixel `x` at 32 bpp lie inside its row. */
  lemma In32(g: Shape, x: nat)
    requires g.bpp == 32 && x < g.width
    ensures 4 * x + 3 < ColorStride(g)
  {
    StrideHolds(g.width, 32, x);
  }

  /** A row holds the bits of every pixel before the one after `x`. */
  lemma StrideHolds(width: nat, bpp: nat, x: nat)
    requires x < width
    ensures Stride(width, bpp) * 8 >= Area(bpp, x + 1)
    ensures Area(bpp, x + 1) == bpp * (x + 1)
  {
    var n := Area(bpp, width);
    assert (n + 31) / 32 * 32 >= n;
    AreaMono(bpp, x + 1, width);
    AreaIsProduct(bpp, x + 1);
  }

  /** The runs of the two planes on either side of the row being derived. */
  datatype Around = Around(preX: seq<byte>, postX: seq<byte>, preA: seq<byte>, postA: seq<byte>)

  /** The planes while a row is derived: its XOR bytes and its AND bytes
      after its first `x` pixels, between runs that stay as they are. */
  ghost predicate InRow(xor: array<byte>, and: array<byte>, row: seq<byte>, g: Shape, x: nat, f: Around)
    reads xor, and
  {
    && xor[..] == f.preX + XorRow(row, g, x) + f.postX
    && and[..] == f.preA + AndRow(row, g, x) + f.postA
  }

  /** Where the row starts in each plane, and the requirements every
      pixel step shares. */
  ghost predicate PixelReady(xor: array<byte>, and: array<byte>, row: seq<byte>, g: Shape, x: nat, f: Around,
    posC: int, posB: int)
    reads xor, and
  {
    && xor != and && x < g.width && |row| == ColorStride(g)
    && |f.preX| == posC && |f.preA| == posB
    && InRow(xor, and, row, g, x, f)
  }

  /** The AND plane around a row, as a matching pixel `x` at a depth
      other than 1 bpp finds it and leaves it: its bit is set. */
  lemma AndHit(row: seq<byte>, g: Shape, x: nat, f: Around)
    requires g.bpp != 1 && x < g.width && Matches(row, g, x)
    ensures var t, at := f.preA + AndRow(row, g, x) + f.postA, |f.preA| + x / 8;
      at < |t| && t[at := t[at] | Mask(x % 8)] == f.preA + AndRow(row, g, x + 1) + f.postA
  {
    var cur, next, k, m := AndRow(row, g, x), AndRow(row, g, x + 1), x / 8, Mask(x % 8);
    assert k < |cur| && next == cur[k := cur[k] | m] by {
      InMask(g, x);
      AndBitStep(row, g, x);
    }
    OrInto(f.preA, cur, next, f.postA, k, m);
  }

  /** Setting bits `m` of byte `c` of the middle run of three makes it
      `next` when `next` is the middle run with those bits set. */
  lemma OrInto(pre: seq<byte>, mid: seq<byte>, next: seq<byte>, post: seq<byte>, c: nat, m: byte)
    requires c < |mid| && next == mid[c := mid[c] | m]
    ensures var s := pre + mid + post;
      |pre| + c < |s| && s[|pre| + c := s[|pre| + c] | m] == pre + next + post
  {
    Splice(pre, mid, post, c, mid[c] | m);
  }

  /** A pixel that does not match leaves the AND row as it was. */
  lemma AndMiss(row: seq<byte>, g: Shape, x: nat)
    requires g.bpp != 1 && x < g.width && !Matches(row, g, x)
    ensures AndRow(row, g, x + 1) == AndRow(row, g, x)
  {
    InMask(g, x);
    AndBitStep(row, g, x);
  }

  /** The XOR plane around a row, as pixel `x` at 8 bpp finds it and
      leaves it. */
  lemma Xor8Effect(row: seq<byte>, g: Shape, x: nat, f: Around)
    requires g.bpp == 8 && x < g.width && |row| == ColorStride(g)
    ensures var s, at := f.preX + XorRow(row, g, x) + f.postX, |f.preX| + x;
      && x < |row| && at < |s| && s[at] == row[x]
      && (!PixelFault(row, g, x) ==> (Matches(row, g, x) <==> SameRgb(g.colors[row[x]], KeyColor(g.key))))
      && (Matches(row, g, x) ==> s[at := 0] == f.preX + XorRow(row, g, x + 1) + f.postX)
      && (!Matches(row, g, x) ==> s == f.preX + XorRow(row, g, x + 1) + f.postX)
  {
    In8(g, x);
    Current(row, g, x);
    Splice(f.preX, XorRow(row, g, x), f.postX, x, 0);
    Xor8Step(row, g, x);
  }

  /** Pixel `x` at 8 bpp: its byte is a colour-table index; an index past
      the table throws. */
  method Pixel8(xor: array<byte>, and: array<byte>, g: Shape, ghost row: seq<byte>, ghost f: Around,
    posC: int, posB: int, x: nat) returns (fault: bool)
    requires g.bpp == 8 && PixelReady(xor, and, row, g, x, f, posC, posB)
    modifies xor, and
    ensures fault == PixelFault(row, g, x)
    ensures fault ==> unchanged(xor) && unchanged(and)
    ensures !fault ==> InRow(xor, and, row, g, x + 1, f)
  {
    Xor8Effect(row, g, x, f);
    if xor[x + posC] as int >= |g.colors| {
      return true;
    }
    Recolor8(xor, and, g, row, f, posC, posB, x);
    return false;
  }

  /** An 8 bpp pixel whose index is in the colour table: a matching pixel
      gets its AND bit and a cleared XOR byte. */
  method Recolor8(xor: array<byte>, and: array<byte>, g: Shape, ghost row: seq<byte>, ghost f: Around,
    posC: int, posB: int, x: nat)
    requires g.bpp == 8 && PixelReady(xor, and, row, g, x, f, posC, posB) && !PixelFault(row, g, x)
    modifies xor, and
    ensures InRow(xor, and, row, g, x + 1, f)
  {
    var at, atA := x + posC, posB + x / 8;
    Index8Step(row, g, x, f, xor[..], and[..], at, atA);
    if SameRgb(g.colors[xor[at]], KeyColor(g.key)) {
      Mark(xor, at, 0, and, atA, Mask(x % 8));
    }
  }

  /** Pixel `x` at 8 bpp whose index is in the table, on the planes'
      contents. */
  lemma Index8Step(row: seq<byte>, g: Shape, x: nat, f: Around, s: seq<byte>, t: seq<byte>, at: int, atA: int)
    requires g.bpp == 8 && x < g.width && |row| == ColorStride(g) && !PixelFault(row, g, x)
    requires s == f.preX + XorRow(row, g, x) + f.postX && t == f.preA + AndRow(row, g, x) + f.postA
    requires at == |f.preX| + x && atA == |f.preA| + x / 8
    ensures 0 <= at < |s| && 0 <= atA < |t| && s[at] as int < |g.colors|
    ensures if SameRgb(g.colors[s[at]], KeyColor(g.key)) then
        && s[at := 0] == f.preX + XorRow(row, g, x + 1) + f.postX
        && t[atA := t[atA] | Mask(x % 8)] == f.preA + AndRow(row, g, x + 1) + f.postA
      else
        && s == f.preX + XorRow(row, g, x + 1) + f.postX
        && t == f.preA + AndRow(row, g, x + 1) + f.postA
  {
    Xor8Effect(row, g, x, f);
    InMask(g, x);
    In8(g, x);
    if SameRgb(g.colors[s[at]], KeyColor(g.key)) {
      assert Matches(row, g, x);
      AndHit(row, g, x, f);
    } else {
      assert !Matches(row, g, x);
      AndMiss(row, g, x);
    }
  }

  /** The XOR byte holding pixel `x` at 4 bpp, as the pixel finds it. */
  lemma Xor4Read(row: seq<byte>, g: Shape, x: nat, f: Around)
    requires g.bpp == 4 && x < g.width && |row| == ColorStride(g)
    ensures var s, at := f.preX + XorRow(row, g, x) + f.postX, |f.preX| + x / 2;
      at < |s| && Nibble(s[at], x) as nat == PaletteIndex(row, g.bpp, x)
  {
    In4(g, x);
    Current(row, g, x);
    Middle(f.preX, XorRow(row, g, x), f.postX, x / 2);
  }

  /** The XOR plane around a row, as pixel `x` at 4 bpp leaves it. */
  lemma Xor4Write(row: seq<byte>, g: Shape, x: nat, f: Around)
    requires g.bpp == 4 && x < g.width && |row| == ColorStride(g)
    ensures var s, at := f.preX + XorRow(row, g, x) + f.postX, |f.preX| + x / 2;
      && at < |s|
      && (Matches(row, g, x) ==> s[at := s[at] & KeepOther(x)] == f.preX + XorRow(row, g, x + 1) + f.postX)
      && (!Matches(row, g, x) ==> s == f.preX + XorRow(row, g, x + 1) + f.postX)
  {
    In4(g, x);
    var cur := XorRow(row, g, x);
    Splice(f.preX, cur, f.postX, x / 2, cur[x / 2] & KeepOther(x));
    Xor4Step(row, g, x);
  }

  /** The nibble of a 4 bpp byte that holds pixel `x`: the high one for
      even `x`. */
  function Nibble(b: byte, x: int): byte
  {
    if x % 2 == 0 then b >> 4 else b & 0x0F
  }

  /** The mask that clears pixel `x`'s nibble and keeps the other one. */
  function KeepOther(x: int): byte
  {
    if x % 2 == 0 then 0x0F else 0xF0
  }

  /** Pixel `x` at 4 bpp: its nibble is a colour-table index; an index
      past the table throws. */
  method Pixel4(xor: array<byte>, and: array<byte>, g: Shape, ghost row: seq<byte>, ghost f: Around,
    posC: int, posB: int, x: nat) returns (fault: bool)
    requires g.bpp == 4 && PixelReady(xor, and, row, g, x, f, posC, posB)
    modifies xor, and
    ensures fault == PixelFault(row, g, x)
    ensures fault ==> unchanged(xor) && unchanged(and)
    ensures !fault ==> InRow(xor, and, row, g, x + 1, f)
  {
    Xor4Read(row, g, x, f);
    var index := Nibble(xor[x / 2 + posC], x);
    if index as int >= |g.colors| {
      return true;
    }
    Recolor4(xor, and, g, row, f, posC, posB, x);
    return false;
  }

  /** A 4 bpp pixel whose index is in the colour table: a matching pixel
      gets its AND bit and a cleared nibble. */
  method Recolor4(xor: array<byte>, and: array<byte>, g: Shape, ghost row: seq<byte>, ghost f: Around,
    posC: int, posB: int, x: nat)
    requires g.bpp == 4 && PixelReady(xor, and, row, g, x, f, posC, posB) && !PixelFault(row, g, x)
    modifies xor, and
    ensures InRow(xor, and, row, g, x + 1, f)
  {
    var at, atA := x / 2 + posC, posB + x / 8;
    Index4Step(row, g, x, f, xor[..], and[..], at, atA);
    var color := xor[at];
    if SameRgb(g.colors[Nibble(color, x)], KeyColor(g.key)) {
      Mark(xor, at, color & KeepOther(x), and, atA, Mask(x % 8));
    }
  }

  /** Pixel `x` at 4 bpp whose index is in the table, on the planes'
      contents. */
  lemma Index4Step(row: seq<byte>, g: Shape, x: nat, f: Around, s: seq<byte>, t: seq<byte>, at: int, atA: int)
    requires g.bpp == 4 && x < g.width && |row| == ColorStride(g) && !PixelFault(row, g, x)
    requires s == f.preX + XorRow(row, g, x) + f.postX && t == f.preA + AndRow(row, g, x) + f.postA
    requires at == |f.preX| + x / 2 && atA == |f.preA| + x / 8
    ensures 0 <= at < |s| && 0 <= atA < |t| && Nibble(s[at], x) as int < |g.colors|
    ensures if SameRgb(g.colors[Nibble(s[at], x)], KeyColor(g.key)) then
        && s[at := s[at] & KeepOther(x)] == f.preX + XorRow(row, g, x + 1) + f.postX
        && t[atA := t[atA] | Mask(x % 8)] == f.preA + AndRow(row, g, x + 1) + f.postA
      else
        && s == f.preX + XorRow(row, g, x + 1) + f.postX
        && t == f.preA + AndRow(row, g, x + 1) + f.postA
  {
    Xor4Read(row, g, x, f);
    Xor4Write(row, g, x, f);
    InMask(g, x);
    if SameRgb(g.colors[Nibble(s[at], x)], KeyColor(g.key)) {
      assert Matches(row, g, x);
      AndHit(row, g, x, f);
    } else {
      assert !Matches(row, g, x);
      AndMiss(row, g, x);
    }
  }

  /** The planes around a row, as pixel `x` at 1 bpp finds and leaves
      them: the XOR row is never written. */
  lemma And1Effect(row: seq<byte>, g: Shape, x: nat, f: Around)
    requires g.bpp == 1 && x < g.width && |row| == ColorStride(g)
    ensures var s, t, k := f.preX + XorRow(row, g, x) + f.postX, f.preA + AndRow(row, g, x) + f.postA, x / 8;
      && |f.preX| + k < |s| && s[|f.preX| + k] == At(row, k) && |f.preA| + k < |t|
      && t[|f.preA| + k := At(row, k)] == f.preA + AndRow(row, g, x + 1) + f.postA
      && XorRow(row, g, x + 1) == XorRow(row, g, x)
  {
    InMask(g, x);
    XorKept(row, g, x);
    XorKept(row, g, x + 1);
    Middle(f.preX, row, f.postX, x / 8);
    Splice(f.preA, AndRow(row, g, x), f.postA, x / 8, row[x / 8]);
    And1Step(row, g, x);
  }

  /** Pixel `x` at 1 bpp: the AND byte holding it becomes a copy of the
      XOR byte holding it. The source indexes both planes with the colour
      row's offset, which at 1 bpp is also the mask row's. */
  method Pixel1(xor: array<byte>, and: array<byte>, g: Shape, ghost row: seq<byte>, ghost f: Around,
    posC: int, posB: int, x: nat)
    requires g.bpp == 1 && PixelReady(xor, and, row, g, x, f, posC, posB) && posB == posC
    modifies and
    ensures InRow(xor, and, row, g, x + 1, f)
  {
    And1Effect(row, g, x, f);
    and[x / 8 + posC] := xor[x / 8 + posC];
  }

  /** The XOR plane around a row, as pixel `x` at 24 bpp finds it: it is
      never written. */
  lemma Xor24Effect(row: seq<byte>, g: Shape, x: nat, f: Around)
    requires g.bpp == 24 && x < g.width && |row| == ColorStride(g)
    ensures var s, at, k := f.preX + XorRow(row, g, x) + f.postX, |f.preX| + 3 * x, KeyColor(g.key);
      && at + 2 < |s|
      && (s[at] == k.r && s[at + 1] == k.g && s[at + 2] == k.b <==> Matches(row, g, x))
      && XorRow(row, g, x + 1) == XorRow(row, g, x)
  {
    In24(g, x);
    XorKept(row, g, x);
    XorKept(row, g, x + 1);
    Middle(f.preX, row, f.postX, 3 * x);
    Middle(f.preX, row, f.postX, 3 * x + 1);
    Middle(f.preX, row, f.postX, 3 * x + 2);
  }

  /** Pixel `x` at 24 bpp: its three bytes, read as red, green, blue in
      stored order, are compared with the key; a match sets its AND bit. */
  method Pixel24(xor: array<byte>, and: array<byte>, g: Shape, ghost row: seq<byte>, ghost f: Around,
    posC: int, posB: int, x: nat)
    requires g.bpp == 24 && PixelReady(xor, and, row, g, x, f, posC, posB)
    modifies and
    ensures InRow(xor, and, row, g, x + 1, f)
  {
    var posX, atA := 3 * x, posB + x / 8;
    Rgb24Step(row, g, x, f, xor[..], and[..], posX + posC, atA);
    var k := KeyColor(g.key);
    var t := Color(0, k.r, k.g, k.b);
    var c := Color(0, xor[posX + posC], xor[posX + posC + 1], xor[posX + posC + 2]);
    if c == t {
      SetBits(and, atA, Mask(x % 8));
    }
  }

  /** Pixel `x` at 24 bpp, on the planes' contents. */
  lemma Rgb24Step(row: seq<byte>, g: Shape, x: nat, f: Around, s: seq<byte>, t: seq<byte>, at: int, atA: int)
    requires g.bpp == 24 && x < g.width && |row| == ColorStride(g)
    requires s == f.preX + XorRow(row, g, x) + f.postX && t == f.preA + AndRow(row, g, x) + f.postA
    requires at == |f.preX| + 3 * x && atA == |f.preA| + x / 8
    ensures 0 <= at && at + 2 < |s| && 0 <= atA < |t|
    ensures s == f.preX + XorRow(row, g, x + 1) + f.postX
    ensures var k := KeyColor(g.key);
      if s[at] == k.r && s[at + 1] == k.g && s[at + 2] == k.b then
        t[atA := t[atA] | Mask(x % 8)] == f.preA + AndRow(row, g, x + 1) + f.postA
      else
        t == f.preA + AndRow(row, g, x + 1) + f.postA
  {
    Xor24Effect(row, g, x, f);
    InMask(g, x);
    if Matches(row, g, x) {
      AndHit(row, g, x, f);
    } else {
      AndMiss(row, g, x);
    }
  }

  /** The blue, green and red XOR bytes of pixel `x` at 32 bpp with a
      colour other than `Color.Transparent`, as the pixel finds them. */
  lemma Xor32Read(row: seq<byte>, g: Shape, x: nat, f: Around)
    requires g.bpp == 32 && !g.key.KnownTransparent? && x < g.width && |row| == ColorStride(g)
    ensures var s, at, k := f.preX + XorRow(row, g, x) + f.postX, |f.preX| + 4 * x, KeyColor(g.key);
      && at + 3 < |s|
      && (s[at] == k.b && s[at + 1] == k.g && s[at + 2] == k.r <==> Matches(row, g, x))
  {
    In32(g, x);
    Current(row, g, x);
    var cur := XorRow(row, g, x);
    Middle(f.preX, cur, f.postX, 4 * x);
    Middle(f.preX, cur, f.postX, 4 * x + 1);
    Middle(f.preX, cur, f.postX, 4 * x + 2);
  }

  /** The XOR plane around a row, as such a pixel leaves it. */
  lemma Xor32Write(row: seq<byte>, g: Shape, x: nat, f: Around)
    requires g.bpp == 32 && !g.key.KnownTransparent? && x < g.width && |row| == ColorStride(g)
    ensures var s, at := f.preX + XorRow(row, g, x) + f.postX, |f.preX| + 4 * x;
      && at + 3 < |s|
      && (Matches(row, g, x) ==> s[at := 0][at + 1 := 0][at + 2 := 0] == f.preX + XorRow(row, g, x + 1) + f.postX)
      && (!Matches(row, g, x) ==> s[at + 3 := 255] == f.preX + XorRow(row, g, x + 1) + f.postX)
  {
    In32(g, x);
    var cur := XorRow(row, g, x);
    var c := 4 * x;
    Splice(f.preX, cur, f.postX, c, 0);
    Splice(f.preX, cur[c := 0], f.postX, c + 1, 0);
    Splice(f.preX, cur[c := 0][c + 1 := 0], f.postX, c + 2, 0);
    Splice(f.preX, cur, f.postX, c + 3, 255);
    Xor32Step(row, g, x);
  }

  /** The XOR plane around a row, as pixel `x` at 32 bpp with
      `Color.Transparent` finds it: it is never written. */
  lemma Xor32AlphaEffect(row: seq<byte>, g: Shape, x: nat, f: Around)
    requires g.bpp == 32 && g.key.KnownTransparent? && x < g.width && |row| == ColorStride(g)
    ensures var s, at := f.preX + XorRow(row, g, x) + f.postX, |f.preX| + 4 * x + 3;
      && at < |s| && (s[at] == 0 <==> Matches(row, g, x))
      && XorRow(row, g, x + 1) == XorRow(row, g, x)
  {
    In32(g, x);
    XorKept(row, g, x);
    XorKept(row, g, x + 1);
    Middle(f.preX, row, f.postX, 4 * x + 3);
  }

  /** Pixel `x` at 32 bpp with `Color.Transparent`: a zero alpha byte
      sets its AND bit. */
  method Pixel32Alpha(xor: array<byte>, and: array<byte>, g: Shape, ghost row: seq<byte>, ghost f: Around,
    posC: int, posB: int, x: nat)
    requires g.bpp == 32 && g.key.KnownTransparent? && PixelReady(xor, and, row, g, x, f, posC, posB)
    modifies and
    ensures InRow(xor, and, row, g, x + 1, f)
  {
    var at, atA := posC + 4 * x + 3, posB + x / 8;
    Alpha32Step(row, g, x, f, xor[..], and[..], at, atA);
    if xor[at] == 0 {
      SetBits(and, atA, Mask(x % 8));
    }
  }

  /** Pixel `x` at 32 bpp with `Color.Transparent`, on the planes' contents. */
  lemma Alpha32Step(row: seq<byte>, g: Shape, x: nat, f: Around, s: seq<byte>, t: seq<byte>, at: int, atA: int)
    requires g.bpp == 32 && g.key.KnownTransparent? && x < g.width && |row| == ColorStride(g)
    requires s == f.preX + XorRow(row, g, x) + f.postX && t == f.preA + AndRow(row, g, x) + f.postA
    requires at == |f.preX| + 4 * x + 3 && atA == |f.preA| + x / 8
    ensures 0 <= at < |s| && 0 <= atA < |t|
    ensures s == f.preX + XorRow(row, g, x + 1) + f.postX
    ensures s[at] == 0 ==> t[atA := t[atA] | Mask(x % 8)] == f.preA + AndRow(row, g, x + 1) + f.postA
    ensures s[at] != 0 ==> t == f.preA + AndRow(row, g, x + 1) + f.postA
  {
    Xor32AlphaEffect(row, g, x, f);
    InMask(g, x);
    In32(g, x);
    if Matches(row, g, x) {
      AndHit(row, g, x, f);
    } else {
      AndMiss(row, g, x);
    }
  }

  /** Pixel `x` at 32 bpp with any other colour: matching blue, green and
      red set the AND bit and clear those bytes; any other pixel gets
      alpha 255. */
  method Pixel32Key(xor: array<byte>, and: array<byte>, g: Shape, ghost row: seq<byte>, ghost f: Around,
    posC: int, posB: int, x: nat)
    requires g.bpp == 32 && !g.key.KnownTransparent? && PixelReady(xor, and, row, g, x, f, posC, posB)
    modifies xor, and
    ensures InRow(xor, and, row, g, x + 1, f)
  {
    var at, atA := posC + 4 * x, posB + x / 8;
    Key32Step(row, g, x, f, xor[..], and[..], at, atA);
    var k := KeyColor(g.key);
    if xor[at] == k.b && xor[at + 1] == k.g && xor[at + 2] == k.r {
      Mark32(xor, at, and, atA, Mask(x % 8));
    } else {
      SetByte(xor, at + 3, 255);
    }
  }

  /** Pixel `x` at 32 bpp with any other colour, on the planes' contents. */
  lemma Key32Step(row: seq<byte>, g: Shape, x: nat, f: Around, s: seq<byte>, t: seq<byte>, at: int, atA: int)
    requires g.bpp == 32 && !g.key.KnownTransparent? && x < g.width && |row| == ColorStride(g)
    requires s == f.preX + XorRow(row, g, x) + f.postX && t == f.preA + AndRow(row, g, x) + f.postA
    requires at == |f.preX| + 4 * x && atA == |f.preA| + x / 8
    ensures 0 <= at && at + 3 < |s| && 0 <= atA < |t|
    ensures var k := KeyColor(g.key);
      if s[at] == k.b && s[at + 1] == k.g && s[at + 2] == k.r then
        && s[at := 0][at + 1 := 0][at + 2 := 0] == f.preX + XorRow(row, g, x + 1) + f.postX
        && t[atA := t[atA] | Mask(x % 8)] == f.preA + AndRow(row, g, x + 1) + f.postA
      else
        && s[at + 3 := 255] == f.preX + XorRow(row, g, x + 1) + f.postX
        && t == f.preA + AndRow(row, g, x + 1) + f.postA
  {
    Xor32Read(row, g, x, f);
    Xor32Write(row, g, x, f);
    InMask(g, x);
    In32(g, x);
    if Matches(row, g, x) {
      AndHit(row, g, x, f);
    } else {
      AndMiss(row, g, x);
    }
  }

  /** Sets the bits of `m` in one byte of a plane. */
  method SetBits(a: array<byte>, at: int, m: byte)
    requires 0 <= at < a.Length
    modifies a
    ensures a[..] == old(a[..])[at := old(a[..])[at] | m]
  {
    a[at] := a[at] | m;
  }

  /** Stores `v` in one byte of a plane. */
  method SetByte(a: array<byte>, at: int, v: byte)
    requires 0 <= at < a.Length
    modifies a
    ensures a[..] == old(a[..])[at := v]
  {
    a[at] := v;
  }

  /** A matching indexed pixel: its XOR byte becomes `v` and the bits of
      `m` are set in its AND byte. */
  method Mark(xor: array<byte>, atX: int, v: byte, and: array<byte>, atA: int, m: byte)
    requires xor != and && 0 <= atX < xor.Length && 0 <= atA < and.Length
    modifies xor, and
    ensures xor[..] == old(xor[..])[atX := v]
    ensures and[..] == old(and[..])[atA := old(and[..])[atA] | m]
  {
    and[atA] := and[atA] | m;
    xor[atX] := v;
  }

  /** A matching 32 bpp pixel: its blue, green and red bytes are cleared
      and the bits of `m` are set in its AND byte. */
  method Mark32(xor: array<byte>, atX: int, and: array<byte>, atA: int, m: byte)
    requires xor != and && 0 <= atX && atX + 2 < xor.Length && 0 <= atA < and.Length
    modifies xor, and
    ensures xor[..] == old(xor[..])[atX := 0][atX + 1 := 0][atX + 2 := 0]
    ensures and[..] == old(and[..])[atA := old(and[..])[atA] | m]
  {
    and[atA] := and[atA] | m;
    xor[atX] := 0;
    xor[atX + 1] := 0;
    xor[atX + 2] := 0;
  }

  /** At depths the derivation has no case for, a pixel changes nothing. */
  lemma OtherEffect(row: seq<byte>, g: Shape, x: nat)
    requires g.bpp !in {1, 4, 8, 16, 24, 32} && x < g.width
    ensures XorRow(row, g, x + 1) == XorRow(row, g, x)
    ensures AndRow(row, g, x + 1) == AndRow(row, g, x)
  {
    InMask(g, x);
    XorKept(row, g, x);
    XorKept(row, g, x + 1);
    AndBitStep(row, g, x);
  }

  /** One pixel of the derivation, by depth: 16 bpp throws, an index past
      the colour table throws, and any other depth is left alone. */
  method DerivePixel(xor: array<byte>, and: array<byte>, g: Shape, ghost row: seq<byte>, ghost f: Around,
    posC: int, posB: int, x: nat) returns (fault: bool)
    requires PixelReady(xor, and, row, g, x, f, posC, posB) && (g.bpp == 1 ==> posB == posC)
    modifies xor, and
    ensures fault == PixelFault(row, g, x)
    ensures fault ==> unchanged(xor) && unchanged(and)
    ensures !fault ==> InRow(xor, and, row, g, x + 1, f)
  {
    fault := false;
    if g.bpp == 1 {
      Pixel1(xor, and, g, row, f, posC, posB, x);
    } else if g.bpp == 4 {
      fault := Pixel4(xor, and, g, row, f, posC, posB, x);
    } else if g.bpp == 8 {
      fault := Pixel8(xor, and, g, row, f, posC, posB, x);
    } else if g.bpp == 16 {
      fault := true;
    } else if g.bpp == 24 {
      Pixel24(xor, and, g, row, f, posC, posB, x);
    } else if g.bpp == 32 {
      if g.key.KnownTransparent? {
        Pixel32Alpha(xor, and, g, row, f, posC, posB, x);
      } else {
        Pixel32Key(xor, and, g, row, f, posC, posB, x);
      }
    } else {
      OtherEffect(row, g, x);
    }
  }

  /** One row of the derivation: the pixels from left to right, stopping
      at the first one that throws. */
  method DeriveRow(xor: array<byte>, and: array<byte>, g: Shape, ghost row: seq<byte>, ghost f: Around,
    posC: int, posB: int) returns (stop: Option<nat>)
    requires xor != and && |row| == ColorStride(g) && |f.preX| == posC && |f.preA| == posB
    requires g.bpp == 1 ==> posB == posC
    requires InRow(xor, and, row, g, 0, f)
    modifies xor, and
    ensures stop.None? ==> RowClean(row, g, g.width) && InRow(xor, and, row, g, g.width, f)
    ensures stop.Some? ==> stop.value < g.width && RowStopped(row, g, stop.value, f, xor[..], and[..])
  {
    var x := 0;
    while x < g.width
      invariant x <= g.width && RowClean(row, g, x) && InRow(xor, and, row, g, x, f)
    {
      var fault := DerivePixel(xor, and, g, row, f, posC, posB, x);
      if fault {
        return Some(x);
      }
      CleanStep(row, g, x);
      x := x + 1;
    }
    return None;
  }

  /** Row `y` of a plane whose rows are `ColorStride(g)` bytes long. */
  function RowOf(plane: seq<byte>, g: Shape, y: nat): (row: seq<byte>)
    requires Area(ColorStride(g), y) + ColorStride(g) <= |plane|
    ensures |row| == ColorStride(g)
  {
    plane[Area(ColorStride(g), y) .. Area(ColorStride(g), y) + ColorStride(g)]
  }

  /** Row `y` of `height` rows of `stride` bytes ends inside them. */
  lemma RowInPlane(stride: nat, y: nat, height: nat)
    requires y < height
    ensures Area(stride, y) + stride == Area(stride, y + 1) <= Area(stride, height)
    ensures Area(stride, height - y) == stride + Area(stride, height - (y + 1))
  {
    AreaRow(stride, y, height);
    AreaStep(stride, height - y);
  }

  /** The first `n` rows of the plane, each derived in full. */
  function XorRowList(plane: seq<byte>, g: Shape, n: nat): (rows: seq<seq<byte>>)
    requires Area(ColorStride(g), n) <= |plane|
    ensures |rows| == n && Uniform(rows, ColorStride(g))
  {
    seq(n, y requires 0 <= y < n => RowInPlane(ColorStride(g), y, n); XorRow(RowOf(plane, g, y), g, g.width))
  }

  /** The AND rows derived from the first `n` rows of the plane. */
  function AndRowList(plane: seq<byte>, g: Shape, n: nat): (rows: seq<seq<byte>>)
    requires Area(ColorStride(g), n) <= |plane|
    ensures |rows| == n && Uniform(rows, MaskStride(g))
  {
    seq(n, y requires 0 <= y < n => RowInPlane(ColorStride(g), y, n); AndRow(RowOf(plane, g, y), g, g.width))
  }

  /** The XOR plane once its first `n` rows have been derived in full. */
  function XorRows(plane: seq<byte>, g: Shape, n: nat): (r: seq<byte>)
    requires Area(ColorStride(g), n) <= |plane|
    ensures |r| == Area(ColorStride(g), n)
  {
    Layout(XorRowList(plane, g, n), ColorStride(g), n)
  }

  /** The AND plane's first `n` rows, derived from the XOR plane's. */
  function AndRows(plane: seq<byte>, g: Shape, n: nat): (r: seq<byte>)
    requires Area(ColorStride(g), n) <= |plane|
    ensures |r| == Area(MaskStride(g), n)
  {
    Layout(AndRowList(plane, g, n), MaskStride(g), n)
  }

  /** Deriving row `n` appends it to the derived XOR rows. */
  lemma XorRowsNext(plane: seq<byte>, g: Shape, n: nat)
    requires Area(ColorStride(g), n + 1) <= |plane|
    ensures Area(ColorStride(g), n) + ColorStride(g) <= |plane|
    ensures XorRows(plane, g, n + 1) == XorRows(plane, g, n) + XorRow(RowOf(plane, g, n), g, g.width)
  {
    var sc := ColorStride(g);
    RowInPlane(sc, n, n + 1);
    var later, sofar := XorRowList(plane, g, n + 1), XorRowList(plane, g, n);
    LayoutNext(later, sc, n, n + 1);
    assert later[..n] == sofar[..n];
    LayoutPrefix(later, sofar, sc, n);
  }

  /** Deriving row `n` appends its AND row to the derived AND rows. */
  lemma AndRowsNext(plane: seq<byte>, g: Shape, n: nat)
    requires Area(ColorStride(g), n + 1) <= |plane|
    ensures Area(ColorStride(g), n) + ColorStride(g) <= |plane|
    ensures AndRows(plane, g, n + 1) == AndRows(plane, g, n) + AndRow(RowOf(plane, g, n), g, g.width)
  {
    var sc := ColorStride(g);
    RowInPlane(sc, n, n + 1);
    var later, sofar := AndRowList(plane, g, n + 1), AndRowList(plane, g, n);
    LayoutNext(later, MaskStride(g), n, n + 1);
    assert later[..n] == sofar[..n];
    LayoutPrefix(later, sofar, MaskStride(g), n);
  }

  /** No pixel of the first `n` rows stops the derivation. */
  predicate PlaneClean(plane: seq<byte>, g: Shape, n: nat)
    requires Area(ColorStride(g), n) <= |plane|
  {
    if n == 0 then true
    else
      RowInPlane(ColorStride(g), n - 1, n);
      PlaneClean(plane, g, n - 1) && RowClean(RowOf(plane, g, n - 1), g, g.width)
  }

  /** A clean plane has only clean rows. */
  lemma {:induction false} CleanRows(plane: seq<byte>, g: Shape, n: nat, y: nat)
    requires Area(ColorStride(g), n) <= |plane| && PlaneClean(plane, g, n) && y < n
    ensures Area(ColorStride(g), y) + ColorStride(g) <= |plane|
    ensures RowClean(RowOf(plane, g, y), g, g.width)
  {
    RowInPlane(ColorStride(g), y, n);
    RowInPlane(ColorStride(g), n - 1, n);
    if y < n - 1 {
      CleanRows(plane, g, n - 1, y);
    }
  }

  /** Before its first pixel a row's XOR bytes are the original ones and
      its AND bytes are zero. */
  lemma RowUntouched(row: seq<byte>, g: Shape)
    ensures XorRow(row, g, 0) == row
    ensures AndRow(row, g, 0) == Zeros(MaskStride(g))
  {
    forall c | 0 <= c < |row|
      ensures XorRow(row, g, 0)[c] == row[c]
    {
      NibblesSteps(row[c], false, false);
    }
  }

  /** A run of zeros split in two. */
  lemma ZerosSplit(m: nat, n: nat)
    ensures Zeros(m + n) == Zeros(m) + Zeros(n)
  {
  }

  /** The runs around row `y` while it is derived: the rows above, done;
      the rows below, untouched; the AND plane below still zero. */
  ghost function FrameOf(plane: seq<byte>, g: Shape, height: nat, y: nat): (f: Around)
    requires |plane| == Area(ColorStride(g), height) && y < height
    ensures |f.preX| == Area(ColorStride(g), y) && |f.preA| == Area(MaskStride(g), y)
    ensures |f.preX| + ColorStride(g) + |f.postX| == |plane|
    ensures |f.preA| + MaskStride(g) + |f.postA| == Area(MaskStride(g), height)
  {
    RowInPlane(ColorStride(g), y, height);
    RowInPlane(MaskStride(g), y, height);
    AreaSplit(MaskStride(g), y + 1, height - (y + 1));
    Around(XorRows(plane, g, y), plane[Area(ColorStride(g), y) + ColorStride(g)..],
      AndRows(plane, g, y), Zeros(Area(MaskStride(g), height - (y + 1))))
  }

  /** Entering row `y`: the XOR plane is the frame around the untouched
      row. */
  lemma EnterXor(plane: seq<byte>, g: Shape, height: nat, y: nat)
    requires |plane| == Area(ColorStride(g), height) && y < height
    ensures Area(ColorStride(g), y) + ColorStride(g) <= |plane|
    ensures var f := FrameOf(plane, g, height, y);
      XorRows(plane, g, y) + plane[Area(ColorStride(g), y)..] == f.preX + RowOf(plane, g, y) + f.postX
  {
    var sc := ColorStride(g);
    RowInPlane(sc, y, height);
    SplitAt(XorRows(plane, g, y), plane, Area(sc, y), sc, RowOf(plane, g, y));
  }

  /** Entering row `y`: the AND plane is the frame around a zero row. */
  lemma EnterAnd(plane: seq<byte>, g: Shape, height: nat, y: nat)
    requires |plane| == Area(ColorStride(g), height) && y < height
    ensures Area(ColorStride(g), y) + ColorStride(g) <= |plane|
    ensures var f := FrameOf(plane, g, height, y);
      AndRows(plane, g, y) + Zeros(Area(MaskStride(g), height - y)) == f.preA + Zeros(MaskStride(g)) + f.postA
  {
    var sb := MaskStride(g);
    RowInPlane(ColorStride(g), y, height);
    RowInPlane(sb, y, height);
    SplitZeros(AndRows(plane, g, y), sb, Area(sb, height - (y + 1)), Zeros(sb));
  }

  /** The rest of a sequence from `a` on, cut after the `n` bytes `mid`. */
  lemma SplitAt(pre: seq<byte>, s: seq<byte>, a: nat, n: nat, mid: seq<byte>)
    requires a + n <= |s| && mid == s[a..a + n]
    ensures pre + s[a..] == pre + mid + s[a + n..]
  {
    assert s[a..] == s[a..a + n] + s[a + n..];
  }

  /** A run of zeros after a prefix, cut after the `n` zeros `mid`. */
  lemma SplitZeros(pre: seq<byte>, n: nat, rest: nat, mid: seq<byte>)
    requires mid == Zeros(n)
    ensures pre + Zeros(n + rest) == pre + mid + Zeros(rest)
  {
    ZerosSplit(n, rest);
  }

  /** Leaving row `y` derived in full: the planes have one more row done. */
  lemma LeaveRow(plane: seq<byte>, g: Shape, height: nat, y: nat)
    requires |plane| == Area(ColorStride(g), height) && y < height
    ensures Area(ColorStride(g), y + 1) <= |plane|
    ensures var row, f := RowOf(plane, g, y), FrameOf(plane, g, height, y);
      && f.preX + XorRow(row, g, g.width) + f.postX == XorRows(plane, g, y + 1) + plane[Area(ColorStride(g), y + 1)..]
      && f.preA + AndRow(row, g, g.width) + f.postA == AndRows(plane, g, y + 1) + Zeros(Area(MaskStride(g), height - (y + 1)))
      && (PlaneClean(plane, g, y) && RowClean(row, g, g.width) ==> PlaneClean(plane, g, y + 1))
  {
    RowInPlane(ColorStride(g), y, height);
    RowInPlane(MaskStride(g), y, height);
    XorRowsNext(plane, g, y);
    AndRowsNext(plane, g, y);
  }

  /** Where the derivation starts: no row done, the AND plane zero. */
  lemma StartPlane(plane: seq<byte>, g: Shape, height: nat)
    ensures XorRows(plane, g, 0) + plane[Area(ColorStride(g), 0)..] == plane
    ensures AndRows(plane, g, 0) + Zeros(Area(MaskStride(g), height)) == Zeros(Area(MaskStride(g), height))
  {
  }

  /** A pixel of the derivation, by row and column. */
  datatype Pixel = Pixel(y: nat, x: nat)

  /** The planes as the derivation leaves them when pixel `p` throws: the
      rows above are derived, the row up to `p` is derived, the rest is
      untouched (the AND plane still zero). */
  ghost predicate Stopped(plane: seq<byte>, g: Shape, height: nat, p: Pixel, xor: seq<byte>, and: seq<byte>)
    requires |plane| == Area(ColorStride(g), height)
  {
    && p.y < height && p.x < g.width
    && (RowInPlane(ColorStride(g), p.y, height);
       && PlaneClean(plane, g, p.y)
       && RowStopped(RowOf(plane, g, p.y), g, p.x, FrameOf(plane, g, height, p.y), xor, and))
  }

  /** The planes as a row leaves them when its pixel `x` throws. */
  ghost predicate RowStopped(row: seq<byte>, g: Shape, x: nat, f: Around, xor: seq<byte>, and: seq<byte>)
  {
    && RowClean(row, g, x) && PixelFault(row, g, x)
    && xor == f.preX + XorRow(row, g, x) + f.postX
    && and == f.preA + AndRow(row, g, x) + f.postA
  }

  /** The planes once the first `y` rows are derived and no pixel threw. */
  ghost predicate Progress(plane: seq<byte>, g: Shape, height: nat, y: nat, xor: seq<byte>, and: seq<byte>)
    requires |plane| == Area(ColorStride(g), height)
  {
    && y <= height
    && (RowsInPlane(ColorStride(g), y, height);
       && PlaneClean(plane, g, y)
       && xor == XorRows(plane, g, y) + plane[Area(ColorStride(g), y)..]
       && and == AndRows(plane, g, y) + Zeros(Area(MaskStride(g), height - y)))
  }

  /** The first `y` of `height` rows of `stride` bytes. */
  lemma RowsInPlane(stride: nat, y: nat, height: nat)
    requires y <= height
    ensures Area(stride, y) <= Area(stride, height)
  {
    AreaMono(stride, y, height);
  }

  /** Row `y` of the derivation, at the offsets `Set` computes for it. */
  method DeriveRowAt(xor: array<byte>, and: array<byte>, g: Shape, ghost plane: seq<byte>, height: nat, y: nat)
    returns (stop: Option<nat>)
    requires xor != and && |plane| == Area(ColorStride(g), height) && y < height
    requires Progress(plane, g, height, y, xor[..], and[..])
    modifies xor, and
    ensures stop.None? ==> Progress(plane, g, height, y + 1, xor[..], and[..])
    ensures stop.Some? ==> Outcome(plane, g, height, Some(Pixel(y, stop.value)), xor[..], and[..])
  {
    var posB, posC := Area(MaskStride(g), y), Area(ColorStride(g), y);
    EnterXor(plane, g, height, y);
    EnterAnd(plane, g, height, y);
    RowUntouched(RowOf(plane, g, y), g);
    LeaveRow(plane, g, height, y);
    stop := DeriveRow(xor, and, g, RowOf(plane, g, y), FrameOf(plane, g, height, y), posC, posB);
    if stop.Some? {
      StopDerive(plane, g, height, Pixel(y, stop.value), xor[..], and[..]);
    }
  }

  /** The derivation over a whole image, rows top to bottom as they are
      stored. It stops at the first pixel that throws, leaving the planes
      half-derived; otherwise every row of both planes is derived. */
  method Derive(xor: array<byte>, and: array<byte>, g: Shape, height: nat, ghost plane: seq<byte>)
    returns (stop: Option<Pixel>)
    requires xor != and && xor[..] == plane
    requires xor.Length == Area(ColorStride(g), height) && and.Length == Area(MaskStride(g), height)
    requires and[..] == Zeros(and.Length)
    modifies xor, and
    ensures Outcome(plane, g, height, stop, xor[..], and[..])
  {
    BeginDerive(plane, g, height, and[..]);
    var y := 0;
    while y < height
      invariant y <= height && Progress(plane, g, height, y, xor[..], and[..])
    {
      var stopX := DeriveRowAt(xor, and, g, plane, height, y);
      if stopX.Some? {
        return Some(Pixel(y, stopX.value));
      }
      y := y + 1;
    }
    assert y == height;
    stop := None;
    EndDerive(plane, g, height, xor[..], and[..]);
  }

  /** Before the first row: nothing derived, the AND plane all zero. */
  lemma BeginDerive(plane: seq<byte>, g: Shape, height: nat, and: seq<byte>)
    requires |plane| == Area(ColorStride(g), height) && and == Zeros(Area(MaskStride(g), height))
    ensures Progress(plane, g, height, 0, plane, and)
  {
    StartPlane(plane, g, height);
  }

  /** After the last row: both planes derived in full. */
  lemma EndDerive(plane: seq<byte>, g: Shape, height: nat, xor: seq<byte>, and: seq<byte>)
    requires |plane| == Area(ColorStride(g), height) && Progress(plane, g, height, height, xor, and)
    ensures Outcome(plane, g, height, None, xor, and)
  {
    FirstFaultIs(plane, g, height, None);
    FinishPlane(plane, g, height);
  }

  /** At a pixel that throws: the planes as far as they got. */
  lemma StopDerive(plane: seq<byte>, g: Shape, height: nat, p: Pixel, xor: seq<byte>, and: seq<byte>)
    requires |plane| == Area(ColorStride(g), height) && Stopped(plane, g, height, p, xor, and)
    ensures Outcome(plane, g, height, Some(p), xor, and)
  {
    FirstFaultIs(plane, g, height, Some(p));
  }

  /** Where a row stops the derivation: nowhere among its first `n`
      pixels when they are all clean, and otherwise at the first of them
      that throws. */
  predicate FaultAt(row: seq<byte>, g: Shape, n: nat, r: Option<nat>)
  {
    match r
    case None => RowClean(row, g, n)
    case Some(x) => x < n && RowClean(row, g, x) && PixelFault(row, g, x)
  }

  /** The first of the first `n` pixels of a row that throws, scanning
      left to right. */
  function RowFault(row: seq<byte>, g: Shape, n: nat): (r: Option<nat>)
    ensures r.Some? ==> r.value < n
  {
    if n == 0 then None
    else
      match RowFault(row, g, n - 1)
      case Some(x) => Some(x)
      case None => if PixelFault(row, g, n - 1) then Some(n - 1) else None
  }

  /** The scan finds exactly the pixel `FaultAt` describes. */
  lemma {:induction false} RowFaultIs(row: seq<byte>, g: Shape, n: nat, r: Option<nat>)
    ensures FaultAt(row, g, n, r) <==> r == RowFault(row, g, n)
  {
    if n > 0 {
      var earlier := RowFault(row, g, n - 1);
      RowFaultIs(row, g, n - 1, earlier);
      RowFaultIs(row, g, n - 1, r);
      RowFaultIs(row, g, n - 1, None);
      if earlier.None? && !PixelFault(row, g, n - 1) {
        CleanStep(row, g, n - 1);
      }
    }
  }

  /** Where the derivation of the first `n` rows ends: after them when no
      pixel throws, and otherwise at the first pixel, row by row and left
      to right, that throws. */
  ghost predicate Stops(plane: seq<byte>, g: Shape, n: nat, stop: Option<Pixel>)
    requires Area(ColorStride(g), n) <= |plane|
  {
    match stop
    case None => PlaneClean(plane, g, n)
    case Some(p) =>
      && p.y < n
      && (RowInPlane(ColorStride(g), p.y, n);
         && PlaneClean(plane, g, p.y) && FaultAt(RowOf(plane, g, p.y), g, g.width, Some(p.x)))
  }

  /** The first pixel of the first `n` rows that throws, scanning the rows
      in the order they are stored. */
  function FirstFault(plane: seq<byte>, g: Shape, n: nat): (r: Option<Pixel>)
    requires Area(ColorStride(g), n) <= |plane|
    ensures r.Some? ==> r.value.y < n && r.value.x < g.width
  {
    if n == 0 then None
    else
      RowInPlane(ColorStride(g), n - 1, n);
      match FirstFault(plane, g, n - 1)
      case Some(p) => Some(p)
      case None =>
        match RowFault(RowOf(plane, g, n - 1), g, g.width)
        case Some(x) => Some(Pixel(n - 1, x))
        case None => None
  }

  /** The scan over the rows finds exactly the pixel `Stops` describes. */
  lemma FirstFaultIs(plane: seq<byte>, g: Shape, n: nat, stop: Option<Pixel>)
    requires Area(ColorStride(g), n) <= |plane|
    ensures Stops(plane, g, n, stop) <==> stop == FirstFault(plane, g, n)
  {
    FirstFaultStops(plane, g, n);
    if Stops(plane, g, n, stop) {
      StopsUnique(plane, g, n, stop, FirstFault(plane, g, n));
    }
  }

  /** The pixel the scan finds is where the derivation stops. */
  lemma {:induction false} FirstFaultStops(plane: seq<byte>, g: Shape, n: nat)
    requires Area(ColorStride(g), n) <= |plane|
    ensures Stops(plane, g, n, FirstFault(plane, g, n))
  {
    if n > 0 {
      RowInPlane(ColorStride(g), n - 1, n);
      FirstFaultStops(plane, g, n - 1);
      if FirstFault(plane, g, n - 1).None? {
        var row := RowOf(plane, g, n - 1);
        RowFaultIs(row, g, g.width, RowFault(row, g, g.width));
      }
    }
  }

  /** The derivation stops in one place only. */
  lemma StopsUnique(plane: seq<byte>, g: Shape, n: nat, a: Option<Pixel>, b: Option<Pixel>)
    requires Area(ColorStride(g), n) <= |plane|
    requires Stops(plane, g, n, a) && Stops(plane, g, n, b)
    ensures a == b
  {
    match (a, b)
    case (None, None) =>
    case (None, Some(q)) => CleanRows(plane, g, n, q.y);
    case (Some(p), None) => CleanRows(plane, g, n, p.y);
    case (Some(p), Some(q)) =>
      if p.y < q.y {
        CleanRows(plane, g, q.y, p.y);
      } else if q.y < p.y {
        CleanRows(plane, g, p.y, q.y);
      }
  }

  /** The XOR and AND planes the derivation leaves when it ends at `stop`:
      both derived in full, or derived up to the pixel that threw. */
  ghost function Planes(plane: seq<byte>, g: Shape, height: nat, stop: Option<Pixel>): (r: (seq<byte>, seq<byte>))
    requires |plane| == Area(ColorStride(g), height) && (stop.Some? ==> stop.value.y < height)
    ensures |r.0| == |plane| && |r.1| == Area(MaskStride(g), height)
  {
    match stop
    case None => (XorRows(plane, g, height), AndRows(plane, g, height))
    case Some(p) =>
      RowInPlane(ColorStride(g), p.y, height);
      var row, f := RowOf(plane, g, p.y), FrameOf(plane, g, height, p.y);
      (f.preX + XorRow(row, g, p.x) + f.postX, f.preA + AndRow(row, g, p.x) + f.postA)
  }

  /** What the derivation does to the planes: it ends at the first pixel
      that throws, if any, and leaves the planes `Planes` gives. */
  ghost predicate Outcome(plane: seq<byte>, g: Shape, height: nat, stop: Option<Pixel>, xor: seq<byte>, and: seq<byte>)
    requires |plane| == Area(ColorStride(g), height)
  {
    stop == FirstFault(plane, g, height) && (xor, and) == Planes(plane, g, height, stop)
  }

  /** Where the derivation ends: every row done, nothing left over. */
  lemma FinishPlane(plane: seq<byte>, g: Shape, height: nat)
    requires |plane| == Area(ColorStride(g), height)
    ensures XorRows(plane, g, height) + plane[Area(ColorStride(g), height)..] == XorRows(plane, g, height)
    ensures AndRows(plane, g, height) + Zeros(Area(MaskStride(g), height - height)) == AndRows(plane, g, height)
  {
  }

  /** Setting bit `i` of a byte, or not, changes bit `j` only when it is
      set and `i == j`. */
  lemma OrMaskBit(a: byte, m: bool, i: nat, j: nat)
    requires i < 8 && j < 8
    ensures (a | (if m then Mask(i) else 0)) & Mask(j) != 0 <==> a & Mask(j) != 0 || (m && i == j)
  {
  }

  /** Bit `j` of an AND byte after `n` of its pixels is set exactly when
      pixel `j` is among them and matches. */
  lemma MaskBitsBit(row: seq<byte>, g: Shape, k: int, n: nat, j: nat)
    requires n <= 8 && j < 8
    ensures MaskBits(row, g, k, n) & Mask(j) != 0 <==> j < n && Matches(row, g, 8 * k + j)
  {
    var hits := Hits(row, g, k, n);
    MaskBitsHits(row, g, k, n);
    OrMasksBit(hits, j);
    if j < n {
      assert hits[j] == Matches(row, g, 8 * k + j);
    }
  }

  /** Which of the first `n` pixels of AND byte `k` match. */
  function Hits(row: seq<byte>, g: Shape, k: int, n: nat): (h: seq<bool>)
    ensures |h| == n
  {
    seq(n, i => Matches(row, g, 8 * k + i))
  }

  /** The OR of the masks of the flags that are set. */
  function OrMasks(hits: seq<bool>): byte
    requires |hits| <= 8
  {
    if hits == [] then 0
    else OrMasks(hits[..|hits| - 1]) | (if hits[|hits| - 1] then Mask(|hits| - 1) else 0)
  }

  /** An AND byte is the OR of the masks of its matching pixels. */
  lemma {:induction false} MaskBitsHits(row: seq<byte>, g: Shape, k: int, n: nat)
    requires n <= 8
    ensures MaskBits(row, g, k, n) == OrMasks(Hits(row, g, k, n))
  {
    if n > 0 {
      var hits := Hits(row, g, k, n);
      MaskBitsHits(row, g, k, n - 1);
      assert hits[..n - 1] == Hits(row, g, k, n - 1);
      assert hits[n - 1] == Matches(row, g, 8 * k + n - 1);
    }
  }

  /** Bit `j` of such an OR is set exactly when flag `j` is. */
  lemma {:induction false} OrMasksBit(hits: seq<bool>, j: nat)
    requires |hits| <= 8 && j < 8
    ensures OrMasks(hits) & Mask(j) != 0 <==> j < |hits| && hits[j]
  {
    if hits != [] {
      var n := |hits| - 1;
      OrMasksBit(hits[..n], j);
      OrMaskBit(OrMasks(hits[..n]), hits[n], n, j);
    }
  }

  /** The derived AND row at depths other than 1 bpp: bit `j` of byte `k`
      is set exactly when pixel `8k + j` exists and has the transparent
      colour; the row's padding bits stay clear. */
  lemma AndRowBits(row: seq<byte>, g: Shape, k: nat, j: nat)
    requires g.bpp != 1 && k < MaskStride(g) && j < 8
    ensures AndRow(row, g, g.width)[k] & Mask(j) != 0 <==> 8 * k + j < g.width && Matches(row, g, 8 * k + j)
  {
    MaskBitsBit(row, g, k, Seen(g.width, k), j);
  }

  /** The derived AND row at 1 bpp: a copy of the XOR bytes that hold
      pixels, zero in the padding after them. */
  lemma AndRowCopy(row: seq<byte>, g: Shape, k: nat)
    requires g.bpp == 1 && k < MaskStride(g) && |row| == ColorStride(g)
    ensures AndRow(row, g, g.width)[k] == if 8 * k < g.width then row[k] else 0
  {
  }

  /** The two nibbles of a 4 bpp byte after clearing. */
  lemma NibbleParts(b: byte, h: bool, l: bool)
    ensures Nibbles(b, h, l) >> 4 == if h then 0 else b >> 4
    ensures Nibbles(b, h, l) & 0x0F == if l then 0 else b & 0x0F
  {
  }

  /** The derived XOR row at 4 bpp: a transparent pixel reads as index 0,
      any other pixel keeps its index. */
  lemma Xor4Pixel(row: seq<byte>, g: Shape, x: nat)
    requires g.bpp == 4 && x < g.width && x / 2 < |row|
    ensures PaletteIndex(XorRow(row, g, g.width), 4, x) ==
      if Matches(row, g, x) then 0 else PaletteIndex(row, 4, x)
  {
    var c := x / 2;
    var h, l := Matches(row, g, 2 * c), 2 * c + 1 < g.width && Matches(row, g, 2 * c + 1);
    assert XorRow(row, g, g.width)[c] == Nibbles(row[c], h, l);
    NibbleOf(row[c], h, l, x);
    if x % 2 == 0 {
      assert 2 * c == x;
    } else {
      assert 2 * c + 1 == x;
    }
  }

  /** The nibble of pixel `x` in a byte with nibbles cleared. */
  lemma NibbleOf(b: byte, h: bool, l: bool, x: int)
    ensures Nibble(Nibbles(b, h, l), x) == if (if x % 2 == 0 then h else l) then 0 else Nibble(b, x)
  {
    NibbleParts(b, h, l);
  }

  /** The derived XOR row at 8 bpp: a transparent pixel reads as index 0,
      any other pixel keeps its index. */
  lemma Xor8Pixel(row: seq<byte>, g: Shape, x: nat)
    requires g.bpp == 8 && x < g.width && x < |row|
    ensures PaletteIndex(XorRow(row, g, g.width), 8, x) ==
      if Matches(row, g, x) then 0 else PaletteIndex(row, 8, x)
  {
  }

  /** The derived XOR row at 32 bpp with a colour other than
      `Color.Transparent`: a transparent pixel has blue, green and red
      cleared and keeps its alpha; any other pixel keeps its colour and
      becomes opaque. */
  lemma Xor32Pixel(row: seq<byte>, g: Shape, x: nat, i: nat)
    requires g.bpp == 32 && !g.key.KnownTransparent? && x < g.width && 4 * x + 3 < |row| && i < 4
    ensures XorRow(row, g, g.width)[4 * x + i] ==
      if Matches(row, g, x) then (if i < 3 then 0 else row[4 * x + 3])
      else (if i < 3 then row[4 * x + i] else 255)
  {
    assert (4 * x + i) / 4 == x && (4 * x + i) % 4 == i;
  }

  /** Row `y` of the derived XOR plane is the derived row. */
  lemma XorRowsRow(plane: seq<byte>, g: Shape, n: nat, y: nat)
    requires Area(ColorStride(g), n) <= |plane| && y < n
    ensures Area(ColorStride(g), y) + ColorStride(g) <= Area(ColorStride(g), n)
    ensures XorRows(plane, g, n)[Area(ColorStride(g), y) .. Area(ColorStride(g), y) + ColorStride(g)]
      == XorRow(RowOf(plane, g, y), g, g.width)
  {
    RowInPlane(ColorStride(g), y, n);
    LayoutSlice(XorRowList(plane, g, n), ColorStride(g), n, y);
  }

  /** Row `y` of the derived AND plane is the derived row. */
  lemma AndRowsRow(plane: seq<byte>, g: Shape, n: nat, y: nat)
    requires Area(ColorStride(g), n) <= |plane| && y < n
    ensures Area(MaskStride(g), y) + MaskStride(g) <= Area(MaskStride(g), n)
    ensures Area(ColorStride(g), y) + ColorStride(g) <= |plane|
    ensures AndRows(plane, g, n)[Area(MaskStride(g), y) .. Area(MaskStride(g), y) + MaskStride(g)]
      == AndRow(RowOf(plane, g, y), g, g.width)
  {
    RowInPlane(ColorStride(g), y, n);
    RowInPlane(MaskStride(g), y, n);
    LayoutSlice(AndRowList(plane, g, n), MaskStride(g), n, y);
  }
}
