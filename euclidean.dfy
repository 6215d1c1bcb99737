/** EuclideanQuantizer: maps every pixel of a 16, 24 or 32 bit bitmap to the
    nearest entry of a palette and packs the indices into an 8, 4 or 1 bit
    target, caching the index found for each raw pixel value. */
module EuclideanQuantizer {
  import opened Bytes
  import opened Drawing
  import opened Wrappers
  import OctreeQuantizer

  /** The start value of the running minimum: one more than the largest
      squared distance between two colours. */
  const StartDistance := 195076

  /** 3 * 255 * 255. */
  const MaxDistance := 195075

  function Sq(d: int): nat
  {
    d * d
  }

  lemma SqBound(d: int)
    requires -255 <= d <= 255
    ensures Sq(d) <= 255 * 255
  {
    var a := if d < 0 then -d else d;
    assert Sq(d) == a * a;
    OctreeQuantizer.MulMono(a, a, 255);
    OctreeQuantizer.MulMono(255, a, 255);
  }

  /** Squared Euclidean distance between a sample and a palette entry. */
  function DistanceSquared(r: byte, g: byte, b: byte, e: Color): (d: nat)
    ensures d <= MaxDistance
  {
    SqBound(r as int - e.r as int);
    SqBound(g as int - e.g as int);
    SqBound(b as int - e.b as int);
    Sq(r as int - e.r as int) + Sq(g as int - e.g as int) + Sq(b as int - e.b as int)
  }

  /** The index chosen so far and its distance. */
  datatype Pick = Pick(index: nat, distance: nat)

  /** The running minimum over `entries` taken from the left with a strict
      comparison: an entry replaces the best one only when it is nearer. */
  function Scan(r: byte, g: byte, b: byte, entries: seq<Color>): Pick
  {
    if entries == [] then Pick(0, StartDistance)
    else
      var best := Scan(r, g, b, entries[..|entries| - 1]);
      var d := DistanceSquared(r, g, b, entries[|entries| - 1]);
      if d < best.distance then Pick(|entries| - 1, d) else best
  }

  /** The pick is an entry and carries that entry's distance; with no
      entries it is the starting pick. */
  lemma {:induction false} ScanPicks(r: byte, g: byte, b: byte, entries: seq<Color>)
    ensures var p := Scan(r, g, b, entries);
      && (entries == [] ==> p == Pick(0, StartDistance))
      && (entries != [] ==> p.index < |entries| && p.distance == DistanceSquared(r, g, b, entries[p.index]))
  {
    if entries != [] {
      var front := entries[..|entries| - 1];
      ScanPicks(r, g, b, front);
      if front != [] {
        assert front[Scan(r, g, b, front).index] == entries[Scan(r, g, b, front).index];
      }
    }
  }

  /** The palette index FindNearestColor answers. */
  function NearestIndex(r: byte, g: byte, b: byte, entries: seq<Color>): nat
  {
    Scan(r, g, b, entries).index
  }

  /** The answer is an index of least distance, and the lowest one among
      equals; with no entries it is 0. */
  lemma {:induction false} NearestIsLowestArgmin(r: byte, g: byte, b: byte, entries: seq<Color>)
    ensures var n := NearestIndex(r, g, b, entries);
      && (entries == [] ==> n == 0)
      && (entries != [] ==> n < |entries|)
      && (forall i | 0 <= i < |entries| ::
            DistanceSquared(r, g, b, entries[n]) <= DistanceSquared(r, g, b, entries[i]))
      && (forall i | 0 <= i < n ::
            DistanceSquared(r, g, b, entries[n]) < DistanceSquared(r, g, b, entries[i]))
  {
    ScanPicks(r, g, b, entries);
    if entries != [] {
      var front := entries[..|entries| - 1];
      NearestIsLowestArgmin(r, g, b, front);
      ScanPicks(r, g, b, front);
      var n, m := NearestIndex(r, g, b, entries), NearestIndex(r, g, b, front);
      var dn := DistanceSquared(r, g, b, entries[n]);
      assert front != [] ==> front[m] == entries[m];
      forall i | 0 <= i < |front|
        ensures dn <= DistanceSquared(r, g, b, entries[i]) && (i < n ==> dn < DistanceSquared(r, g, b, entries[i]))
      {
        assert front[i] == entries[i];
      }
    }
  }

  /** FindNearestColor: the running minimum over the palette. */
  method FindNearestColor(r: byte, g: byte, b: byte, entries: seq<Color>) returns (bestIndex: nat)
    ensures bestIndex == NearestIndex(r, g, b, entries)
  {
    var minDistanceSquared: nat := StartDistance;
    bestIndex := 0;
    var i := 0;
    while i < |entries|
      invariant i <= |entries|
      invariant Pick(bestIndex, minDistanceSquared) == Scan(r, g, b, entries[..i])
    {
      assert entries[..i + 1][..i] == entries[..i];
      var distanceSquared := DistanceSquared(r, g, b, entries[i]);
      if distanceSquared < minDistanceSquared {
        minDistanceSquared := distanceSquared;
        bestIndex := i;
      }
      i := i + 1;
    }
    assert entries[..i] == entries;
  }

  /** One decoded source pixel: its channels and the raw value that keys
      the cache. */
  datatype Sample = Sample(r: byte, g: byte, b: byte, key: bv32)

  /** What the channel and key variables hold before the first pixel. */
  const NoSample := Sample(0, 0, 0, 0)

  predicate DecodedDepth(bpp: nat) { bpp == 16 || bpp == 24 || bpp == 32 }

  /** Four little-endian bytes as a 32-bit word. */
  function Word32(row: seq<byte>, at: nat): bv32
    requires at + 4 <= |row|
  {
    (row[at + 3] as bv32 << 24) | (row[at + 2] as bv32 << 16) | (row[at + 1] as bv32 << 8) | row[at] as bv32
  }

  /** Two little-endian bytes as a word. */
  function Word16(row: seq<byte>, at: nat): bv32
    requires at + 2 <= |row|
  {
    (row[at + 1] as bv32 << 8) | row[at] as bv32
  }

  predicate PixelInRow(row: seq<byte>, bpp: nat, x: nat)
  {
    DecodedDepth(bpp) ==> (bpp / 8) * x + bpp / 8 <= |row|
  }

  /** GetRGB on pixel `x` of a row: a 5-5-5 word for 16 bits, blue, green,
      red bytes for 24 and 32 bits. Any other depth leaves the previous
      values in place. */
  function GetRgb(row: seq<byte>, bpp: nat, x: nat, last: Sample): Sample
    requires PixelInRow(row, bpp, x)
  {
    if bpp == 16 then
      var w := Word16(row, 2 * x);
      Sample(((w & 0x7C00) >> 7) as byte, ((w & 0x03E0) >> 2) as byte, ((w & 0x001F) << 3) as byte, w)
    else if bpp == 24 then
      var r, g, b := row[3 * x + 2], row[3 * x + 1], row[3 * x];
      Sample(r, g, b, (r as bv32 << 16) | (g as bv32 << 8) | b as bv32)
    else if bpp == 32 then
      Sample(row[4 * x + 2], row[4 * x + 1], row[4 * x], Word32(row, 4 * x))
    else last
  }

  /** The colour a cache key stands for at a given depth. */
  function KeyColor(bpp: nat, key: bv32): Rgb
  {
    if bpp == 16 then
      Rgb(((key & 0x7C00) >> 7) as byte, ((key & 0x03E0) >> 2) as byte, ((key & 0x001F) << 3) as byte)
    else if DecodedDepth(bpp) then
      Rgb(((key >> 16) & 0xFF) as byte, ((key >> 8) & 0xFF) as byte, (key & 0xFF) as byte)
    else Rgb(0, 0, 0)
  }

  /** The key of a pixel determines its channels, so caching by key is
      sound (the channels at other depths never leave their start values). */
  lemma KeyDeterminesColor(row: seq<byte>, bpp: nat, x: nat, last: Sample)
    requires PixelInRow(row, bpp, x) && (!DecodedDepth(bpp) ==> last == NoSample)
    ensures var s := GetRgb(row, bpp, x, last);
      Rgb(s.r, s.g, s.b) == KeyColor(bpp, s.key)
  {
    if bpp == 16 {
      Key16(row, x, last);
    } else if bpp == 24 {
      Key24(row, x, last);
    } else if bpp == 32 {
      Key32(row, x, last);
    }
  }

  lemma Key16(row: seq<byte>, x: nat, last: Sample)
    requires 2 * x + 2 <= |row|
    ensures var s := GetRgb(row, 16, x, last);
      Rgb(s.r, s.g, s.b) == KeyColor(16, s.key)
  {
  }

  lemma Key24(row: seq<byte>, x: nat, last: Sample)
    requires 3 * x + 3 <= |row|
    ensures var s := GetRgb(row, 24, x, last);
      Rgb(s.r, s.g, s.b) == KeyColor(24, s.key)
  {
    Unpack24(row[3 * x + 2], row[3 * x + 1], row[3 * x]);
  }

  lemma Key32(row: seq<byte>, x: nat, last: Sample)
    requires 4 * x + 4 <= |row|
    ensures var s := GetRgb(row, 32, x, last);
      Rgb(s.r, s.g, s.b) == KeyColor(32, s.key)
  {
    Unpack32(row[4 * x + 3], row[4 * x + 2], row[4 * x + 1], row[4 * x]);
  }

  /** Bytes 2, 1 and 0 of a 24-bit word come back out of it. */
  lemma Unpack24(r: byte, g: byte, b: byte)
    ensures var w := (r as bv32 << 16) | (g as bv32 << 8) | b as bv32;
      && ((w >> 16) & 0xFF) as byte == r
      && ((w >> 8) & 0xFF) as byte == g
      && (w & 0xFF) as byte == b
  {
  }

  /** Bytes 2, 1 and 0 of a 32-bit word come back out of it. */
  lemma Unpack32(a: byte, r: byte, g: byte, b: byte)
    ensures var w := (a as bv32 << 24) | (r as bv32 << 16) | (g as bv32 << 8) | b as bv32;
      && ((w >> 16) & 0xFF) as byte == r
      && ((w >> 8) & 0xFF) as byte == g
      && (w & 0xFF) as byte == b
  {
  }

  /** A 16-bit pixel yields channels that are multiples of 8, at most 248. */
  lemma Channels16(row: seq<byte>, x: nat, last: Sample)
    requires PixelInRow(row, 16, x)
    ensures var s := GetRgb(row, 16, x, last);
      && s.r & 7 == 0 && s.r <= 0xF8
      && s.g & 7 == 0 && s.g <= 0xF8
      && s.b & 7 == 0 && s.b <= 0xF8
      && s.key == Word16(row, 2 * x)
  {
  }

  // ---------------------------------------------------------------------
  // The target rows, as a function of the indices written so far.

  /** Where in its row the write position stands before pixel `x`: it moves
      on after pixel `x` when `x % 8 == 0 && x != 0` at 1 bpp, after odd
      pixels at 4 bpp and after every pixel at 8 bpp. */
  function CursorBefore(bpp: nat, x: nat): nat
  {
    if bpp == 1 then (if x == 0 then 0 else (x - 1) / 8)
    else if bpp == 4 then x / 2
    else x
  }

  /** At 1 bpp, pixel `x` goes to bit `0x80 >> ((x - 1) & 7)` of the byte
      under the cursor: row position `x - 1`, and position 7 for pixel 0. */
  function Position1(x: nat): nat
  {
    if x == 0 then 7 else x - 1
  }

  /** The pixel that last wrote row position `q` once `n` pixels are done:
      pixel `q + 1`, except that position 7 holds pixel 0 until pixel 8
      comes along. */
  function Writer1(q: nat, n: nat): (w: Option<nat>)
    ensures w.Some? ==> w.value < n && Position1(w.value) == q
  {
    if q + 1 < n then Some(q + 1)
    else if q == 7 && n >= 1 then Some(0)
    else None
  }

  /** Row position `q` is set when its last writer had index 1. */
  predicate Lit1(idx: seq<byte>, q: nat)
  {
    match Writer1(q, |idx|)
    case None => false
    case Some(p) => idx[p] == 1
  }

  function Bit(b: bool): byte { if b then 1 else 0 }

  /** Eight bits, most significant first, as a byte. */
  function Byte8(b0: bool, b1: bool, b2: bool, b3: bool, b4: bool, b5: bool, b6: bool, b7: bool): byte
  {
    (Bit(b0) << 7) | (Bit(b1) << 6) | (Bit(b2) << 5) | (Bit(b3) << 4)
    | (Bit(b4) << 3) | (Bit(b5) << 2) | (Bit(b6) << 1) | Bit(b7)
  }

  /** Bit `j` of a byte, counted from the most significant end. */
  function Mask(j: bv8): byte
    requires j < 8
  {
    0x80 >> j
  }

  function Pick8(b0: bool, b1: bool, b2: bool, b3: bool, b4: bool, b5: bool, b6: bool, b7: bool, j: bv8): bool
    requires j < 8
  {
    if j == 0 then b0 else if j == 1 then b1 else if j == 2 then b2 else if j == 3 then b3
    else if j == 4 then b4 else if j == 5 then b5 else if j == 6 then b6 else b7
  }

  lemma BitOfByte8(b0: bool, b1: bool, b2: bool, b3: bool, b4: bool, b5: bool, b6: bool, b7: bool, j: bv8)
    requires j < 8
    ensures (Byte8(b0, b1, b2, b3, b4, b5, b6, b7) & Mask(j) != 0) == Pick8(b0, b1, b2, b3, b4, b5, b6, b7, j)
  {
  }

  /** Two bytes that agree on every bit are equal. */
  lemma BitsDetermine(a: byte, b: byte)
    requires forall j: bv8 | j < 8 :: (a & Mask(j) != 0) == (b & Mask(j) != 0)
    ensures a == b
  {
    assert (a & Mask(0) != 0) == (b & Mask(0) != 0);
    assert (a & Mask(1) != 0) == (b & Mask(1) != 0);
    assert (a & Mask(2) != 0) == (b & Mask(2) != 0);
    assert (a & Mask(3) != 0) == (b & Mask(3) != 0);
    assert (a & Mask(4) != 0) == (b & Mask(4) != 0);
    assert (a & Mask(5) != 0) == (b & Mask(5) != 0);
    assert (a & Mask(6) != 0) == (b & Mask(6) != 0);
    assert (a & Mask(7) != 0) == (b & Mask(7) != 0);
  }

  /** ORing in a mask sets its bit, ANDing with its complement clears it,
      and neither touches another bit. */
  lemma MaskUpdate(v: byte, j: bv8, jj: bv8)
    requires j < 8 && jj < 8
    ensures ((v | Mask(j)) & Mask(jj) != 0) <==> ((v & Mask(jj)) != 0 || j == jj)
    ensures ((v & (Mask(j) ^ 0xFF)) & Mask(jj) != 0) <==> ((v & Mask(jj)) != 0 && j != jj)
  {
  }

  lemma SmallBvInjective(j: bv8, jj: bv8)
    requires j < 8 && jj < 8
    ensures (j as int == jj as int) == (j == jj)
  {
  }

  /** `(x - 1) & 7`, the bit of its byte that pixel `x` of a 1 bpp row goes to. */
  function BitIndex1(x: nat): (j: bv8)
    ensures j < 8
  {
    var m := (x - 1) % 8;
    if m == 0 then 0 else if m == 1 then 1 else if m == 2 then 2 else if m == 3 then 3
    else if m == 4 then 4 else if m == 5 then 5 else if m == 6 then 6 else 7
  }

  lemma BitIndex1Value(x: nat)
    ensures BitIndex1(x) as int == (x - 1) % 8
  {
  }

  /** Byte `k` of a 1 bpp row: positions `8k .. 8k+7`. */
  function Byte1(idx: seq<byte>, k: nat): byte
  {
    Byte8(Lit1(idx, 8 * k), Lit1(idx, 8 * k + 1), Lit1(idx, 8 * k + 2), Lit1(idx, 8 * k + 3),
          Lit1(idx, 8 * k + 4), Lit1(idx, 8 * k + 5), Lit1(idx, 8 * k + 6), Lit1(idx, 8 * k + 7))
  }

  lemma BitOfByte1(idx: seq<byte>, k: nat, j: bv8)
    requires j < 8
    ensures (Byte1(idx, k) & Mask(j) != 0) == Lit1(idx, 8 * k + j as int)
  {
    BitOfByte8(Lit1(idx, 8 * k), Lit1(idx, 8 * k + 1), Lit1(idx, 8 * k + 2), Lit1(idx, 8 * k + 3),
               Lit1(idx, 8 * k + 4), Lit1(idx, 8 * k + 5), Lit1(idx, 8 * k + 6), Lit1(idx, 8 * k + 7), j);
  }

  /** The high nibble contributed by pixel `i` at 4 bpp (the shift keeps
      the low eight bits, as the byte cast does). */
  function High4(idx: seq<byte>, i: nat): byte
  {
    if i < |idx| then idx[i] << 4 else 0
  }

  function Low4(idx: seq<byte>, i: nat): byte
  {
    if i < |idx| then idx[i] else 0
  }

  /** Byte `k` of a 4 bpp row: pixel `2k` in the high nibble, `2k + 1` in
      the low one. */
  function Byte4(idx: seq<byte>, k: nat): byte
  {
    High4(idx, 2 * k) | Low4(idx, 2 * k + 1)
  }

  function Byte8bpp(idx: seq<byte>, k: nat): byte
  {
    if k < |idx| then idx[k] else 0
  }

  /** A target row of `stride` zero bytes after the pixels with indices
      `idx` have been written into it at 1, 4 or 8 bits per pixel. */
  function PackRow(bpp: nat, idx: seq<byte>, stride: nat): (row: seq<byte>)
    ensures |row| == stride
  {
    if stride == 0 then [] else PackRow(bpp, idx, stride - 1) + [PackedByte(bpp, idx, stride - 1)]
  }

  /** Byte `k` of a packed row at 1, 4 or 8 bits per pixel. */
  function PackedByte(bpp: nat, idx: seq<byte>, k: nat): byte
  {
    if bpp == 1 then Byte1(idx, k) else if bpp == 4 then Byte4(idx, k) else Byte8bpp(idx, k)
  }

  lemma {:induction false} PackRowAt(bpp: nat, idx: seq<byte>, stride: nat, k: nat)
    requires k < stride
    ensures PackRow(bpp, idx, stride)[k] == PackedByte(bpp, idx, k)
  {
    if k < stride - 1 {
      PackRowAt(bpp, idx, stride - 1, k);
    }
  }

  /** `((x - 1) & 1) << 2`: pixel `x` goes to the high nibble when `x` is even. */
  function Shift4(x: nat): bv8
  {
    if (x - 1) % 2 == 1 then 4 else 0
  }

  /** The new value of the byte under the cursor when pixel `x` with index
      `i` is written (the byte held `v`). */
  function Written(bpp: nat, x: nat, v: byte, i: byte): byte
  {
    if bpp == 1 then (if i == 1 then v | Mask(BitIndex1(x)) else v & (Mask(BitIndex1(x)) ^ 0xFF))
    else if bpp == 4 then v | (i << Shift4(x))
    else i
  }

  /** Pixel `x` of a 1 bpp row changes only its own position. */
  lemma Lit1Step(idx: seq<byte>, i: byte)
    ensures forall q :: Lit1(idx + [i], q) == if q == Position1(|idx|) then i == 1 else Lit1(idx, q)
  {
  }

  lemma Step1Bit(idx: seq<byte>, i: byte, c: nat, jj: bv8)
    requires jj < 8 && 8 * c + BitIndex1(|idx|) as int == Position1(|idx|)
    ensures (Byte1(idx + [i], c) & Mask(jj) != 0) == (Written(1, |idx|, Byte1(idx, c), i) & Mask(jj) != 0)
  {
    var j := BitIndex1(|idx|);
    BitOfByte1(idx + [i], c, jj);
    BitOfByte1(idx, c, jj);
    MaskUpdate(Byte1(idx, c), j, jj);
    SmallBvInjective(j, jj);
    Lit1Step(idx, i);
  }

  lemma Step1Byte(idx: seq<byte>, i: byte)
    ensures var c := CursorBefore(1, |idx|);
      Byte1(idx + [i], c) == Written(1, |idx|, Byte1(idx, c), i)
  {
    var c := CursorBefore(1, |idx|);
    BitIndex1Value(|idx|);
    assert 8 * c + BitIndex1(|idx|) as int == Position1(|idx|);
    forall jj: bv8 | jj < 8
      ensures (Byte1(idx + [i], c) & Mask(jj) != 0) == (Written(1, |idx|, Byte1(idx, c), i) & Mask(jj) != 0)
    {
      Step1Bit(idx, i, c, jj);
    }
    BitsDetermine(Byte1(idx + [i], c), Written(1, |idx|, Byte1(idx, c), i));
  }

  lemma Step4Byte(idx: seq<byte>, i: byte)
    ensures var c := CursorBefore(4, |idx|);
      Byte4(idx + [i], c) == Written(4, |idx|, Byte4(idx, c), i)
  {
    var x := |idx|;
    var c := x / 2;
    if x % 2 == 0 {
      assert High4(idx + [i], 2 * c) == i << 4 && High4(idx, 2 * c) == 0;
      assert Low4(idx + [i], 2 * c + 1) == 0 == Low4(idx, 2 * c + 1);
    } else {
      assert High4(idx + [i], 2 * c) == High4(idx, 2 * c);
      assert Low4(idx + [i], 2 * c + 1) == i && Low4(idx, 2 * c + 1) == 0;
    }
  }

  /** The bytes away from the cursor do not see pixel `|idx|`. */
  lemma Step1Other(idx: seq<byte>, i: byte, k: nat)
    requires k != CursorBefore(1, |idx|)
    ensures Byte1(idx + [i], k) == Byte1(idx, k)
  {
    Lit1Step(idx, i);
  }

  lemma PackStep1(idx: seq<byte>, i: byte, stride: nat)
    requires CursorBefore(1, |idx|) < stride
    ensures var row, c := PackRow(1, idx, stride), CursorBefore(1, |idx|);
      PackRow(1, idx + [i], stride) == row[c := Written(1, |idx|, row[c], i)]
  {
    var row, row', c := PackRow(1, idx, stride), PackRow(1, idx + [i], stride), CursorBefore(1, |idx|);
    forall k | 0 <= k < stride
      ensures row'[k] == row[c := Written(1, |idx|, row[c], i)][k]
    {
      PackRowAt(1, idx, stride, k);
      PackRowAt(1, idx + [i], stride, k);
      if k == c {
        Step1Byte(idx, i);
      } else {
        Step1Other(idx, i, k);
      }
    }
  }

  lemma PackStep4(idx: seq<byte>, i: byte, stride: nat)
    requires CursorBefore(4, |idx|) < stride
    ensures var row, c := PackRow(4, idx, stride), CursorBefore(4, |idx|);
      PackRow(4, idx + [i], stride) == row[c := Written(4, |idx|, row[c], i)]
  {
    var row, row', c := PackRow(4, idx, stride), PackRow(4, idx + [i], stride), CursorBefore(4, |idx|);
    forall k | 0 <= k < stride
      ensures row'[k] == row[c := Written(4, |idx|, row[c], i)][k]
    {
      PackRowAt(4, idx, stride, k);
      PackRowAt(4, idx + [i], stride, k);
      if k == c {
        Step4Byte(idx, i);
      }
    }
  }

  /** Writing pixel `x = |idx|` changes only the byte under the cursor, as
      Written says: the loop body and the row function agree. */
  lemma PackStep(bpp: nat, idx: seq<byte>, i: byte, stride: nat)
    requires bpp == 1 || bpp == 4 || bpp == 8
    requires CursorBefore(bpp, |idx|) < stride
    ensures var row, c := PackRow(bpp, idx, stride), CursorBefore(bpp, |idx|);
      PackRow(bpp, idx + [i], stride) == row[c := Written(bpp, |idx|, row[c], i)]
  {
    if bpp == 1 {
      PackStep1(idx, i, stride);
    } else if bpp == 4 {
      PackStep4(idx, i, stride);
    } else {
      var row, row' := PackRow(8, idx, stride), PackRow(8, idx + [i], stride);
      forall k | 0 <= k < stride
        ensures row'[k] == row[|idx| := i][k]
      {
        PackRowAt(8, idx, stride, k);
        PackRowAt(8, idx + [i], stride, k);
      }
    }
  }

  /** A fresh target row is all zeros. */
  lemma PackRowEmpty(bpp: nat, stride: nat)
    ensures PackRow(bpp, [], stride) == Zeros(stride)
  {
    forall k | 0 <= k < stride
      ensures PackRow(bpp, [], stride)[k] == 0
    {
      PackRowAt(bpp, [], stride, k);
    }
  }

  /** The cursor never leaves the row while pixels remain. */
  lemma CursorInRow(bpp: nat, width: nat, x: nat)
    requires bpp == 1 || bpp == 4 || bpp == 8
    requires x < width
    ensures CursorBefore(bpp, x) < Stride(width, bpp)
  {
    StrideIsLeastDwordRow(width, bpp);
    var st := Stride(width, bpp);
    if bpp == 1 {
      assert st * 8 >= width;
    } else if bpp == 4 {
      assert st * 8 >= width * 4;
    } else {
      assert st * 8 >= width * 8;
    }
  }

  // ---------------------------------------------------------------------
  // Reading a packed row back.

  /** At 8 bpp the row is the indices, then zeros. */
  lemma Pack8Reads(idx: seq<byte>, stride: nat)
    requires |idx| <= stride
    ensures PackRow(8, idx, stride) == idx + Zeros(stride - |idx|)
  {
    forall k | 0 <= k < stride
      ensures PackRow(8, idx, stride)[k] == (idx + Zeros(stride - |idx|))[k]
    {
      PackRowAt(8, idx, stride, k);
    }
  }

  lemma Nibbles(h: byte, l: byte)
    requires h < 16 && l < 16
    ensures ((h << 4) | l) >> 4 == h && ((h << 4) | l) & 0x0F == l
  {
  }

  /** At 4 bpp pixel `i` is the high nibble of byte `i / 2` when `i` is
      even and its low nibble when `i` is odd, provided every index fits
      in four bits. */
  lemma Pack4Reads(idx: seq<byte>, stride: nat, i: nat)
    requires i < |idx| && i / 2 < stride
    requires forall j | 0 <= j < |idx| :: idx[j] < 16
    ensures var b := PackRow(4, idx, stride)[i / 2];
      if i % 2 == 0 then b >> 4 == idx[i] else b & 0x0F == idx[i]
  {
    var k := i / 2;
    var h, l := Low4(idx, 2 * k), Low4(idx, 2 * k + 1);
    PackRowAt(4, idx, stride, k);
    assert PackRow(4, idx, stride)[k] == (h << 4) | l;
    Nibbles(h, l);
    if i % 2 == 0 {
      assert i == 2 * k && h == idx[i];
    } else {
      assert i == 2 * k + 1 && l == idx[i];
    }
  }

  /** At 1 bpp pixel `x >= 1` sets or clears bit `0x80 >> ((x - 1) & 7)` of
      byte `(x - 1) / 8`: one position to the left of where a packed
      monochrome row keeps pixel `x`. */
  lemma Pack1Reads(idx: seq<byte>, stride: nat, x: nat)
    requires 1 <= x < |idx| && (x - 1) / 8 < stride
    ensures (PackRow(1, idx, stride)[(x - 1) / 8] & Mask(BitIndex1(x)) != 0) <==> idx[x] == 1
  {
    var k, j := (x - 1) / 8, BitIndex1(x);
    PackRowAt(1, idx, stride, k);
    BitIndex1Value(x);
    assert 8 * k + j as int == x - 1;
    BitOfByte1(idx, k, j);
    assert Writer1(x - 1, |idx|) == Some(x);
  }

  /** Pixel 0 lands in the lowest bit of byte 0, which pixel 8 overwrites:
      it survives only in rows of at most eight pixels. */
  lemma Pack1FirstPixel(idx: seq<byte>, stride: nat, b: byte)
    requires 1 <= |idx| <= 8 && 0 < stride && b == PackRow(1, idx, stride)[0]
    ensures (b & 0x01 != 0) <==> idx[0] == 1
  {
    PackRowAt(1, idx, stride, 0);
    BitOfByte1(idx, 0, 7);
  }

  /** In a row of more than eight pixels the target does not depend on
      pixel 0 at all. */
  lemma Pack1LosesFirstPixel(idx: seq<byte>, stride: nat, v: byte)
    requires |idx| > 8
    ensures PackRow(1, idx[0 := v], stride) == PackRow(1, idx, stride)
  {
    assert forall q :: Lit1(idx[0 := v], q) == Lit1(idx, q);
    forall k | 0 <= k < stride
      ensures PackRow(1, idx[0 := v], stride)[k] == PackRow(1, idx, stride)[k]
    {
      PackRowAt(1, idx[0 := v], stride, k);
      PackRowAt(1, idx, stride, k);
    }
  }

  // ---------------------------------------------------------------------
  // The converted image as a function of the source and the palette.

  /** `(byte)FindNearestColor(...)`: the index cast to a byte. */
  function IndexByte(c: Rgb, entries: seq<Color>): byte
  {
    (NearestIndex(c.r, c.g, c.b, entries) % 256) as byte
  }

  /** With at most 256 entries the cast loses nothing: the byte names an
      entry of least distance. */
  lemma IndexByteIsNearest(c: Rgb, entries: seq<Color>)
    requires 1 <= |entries| <= 256
    ensures var i := IndexByte(c, entries) as nat;
      && i < |entries|
      && forall j | 0 <= j < |entries| ::
           DistanceSquared(c.r, c.g, c.b, entries[i]) <= DistanceSquared(c.r, c.g, c.b, entries[j])
  {
    var n := NearestIndex(c.r, c.g, c.b, entries);
    NearestIsLowestArgmin(c.r, c.g, c.b, entries);
    ByteOfNat(n);
  }

  /** Row `y` of the source, `stride` bytes. */
  function SourceRow(source: Bitmap, y: nat): (row: seq<byte>)
    requires WellFormed(source) && y < source.height
    ensures |row| == source.stride
  {
    RowEnd(source, y);
    source.scan[RowBase(source.stride, y)..RowBase(source.stride, y) + source.stride]
  }

  lemma RowEnd(bmp: Bitmap, y: nat)
    requires WellFormed(bmp) && y < bmp.height
    ensures RowBase(bmp.stride, y) + bmp.stride <= |bmp.scan|
  {
    AreaRow(bmp.stride, y, bmp.height);
  }

  /** Every pixel of a well-formed bitmap lies inside its row. */
  lemma PixelFits(source: Bitmap, row: seq<byte>, x: nat)
    requires WellFormed(source) && |row| == source.stride && x < source.width
    ensures PixelInRow(row, BitsOf(source.format), x)
  {
    var bpp, w := BitsOf(source.format), source.width;
    StrideIsLeastDwordRow(w, bpp);
    if bpp == 16 {
      assert source.stride * 8 >= w * 16;
    } else if bpp == 24 {
      assert source.stride * 8 >= w * 24;
    } else if bpp == 32 {
      assert source.stride * 8 >= w * 32;
    }
  }

  /** What GetRGB reads for pixel `x` of row `y`. */
  function PixelSample(source: Bitmap, y: nat, x: nat): Sample
    requires WellFormed(source) && y < source.height && x < source.width
  {
    var row := SourceRow(source, y);
    PixelFits(source, row, x);
    GetRgb(row, BitsOf(source.format), x, NoSample)
  }

  /** The channels carried over from the previous pixel never matter. */
  lemma SampleIsPixel(source: Bitmap, y: nat, x: nat, row: seq<byte>, last: Sample)
    requires WellFormed(source) && y < source.height && x < source.width && row == SourceRow(source, y)
    requires !DecodedDepth(BitsOf(source.format)) ==> last == NoSample
    ensures PixelInRow(row, BitsOf(source.format), x)
    ensures GetRgb(row, BitsOf(source.format), x, last) == PixelSample(source, y, x)
  {
    PixelFits(source, row, x);
  }

  /** What the loop body needs of pixel `x`: it lies in the row, its key
      names its colour, and its colour's index is the row's `x`th. */
  lemma PixelFacts(source: Bitmap, entries: seq<Color>, y: nat, x: nat, row: seq<byte>, last: Sample)
    requires WellFormed(source) && y < source.height && x < source.width && row == SourceRow(source, y)
    requires !DecodedDepth(BitsOf(source.format)) ==> last == NoSample
    ensures PixelInRow(row, BitsOf(source.format), x)
    ensures var s := GetRgb(row, BitsOf(source.format), x, last);
      && KeyColor(BitsOf(source.format), s.key) == Rgb(s.r, s.g, s.b)
      && IndexByte(Rgb(s.r, s.g, s.b), entries) == RowIndices(source, entries, y)[x]
  {
    SampleIsPixel(source, y, x, row, last);
    KeyDeterminesColor(row, BitsOf(source.format), x, last);
    RowIndexIs(source, entries, y, x);
  }

  /** The palette index the target receives for pixel (x, y). */
  function PixelIndex(source: Bitmap, entries: seq<Color>, y: nat, x: nat): byte
    requires WellFormed(source) && y < source.height && x < source.width
  {
    var s := PixelSample(source, y, x);
    IndexByte(Rgb(s.r, s.g, s.b), entries)
  }

  /** The indices of the first `n` pixels of row `y`, left to right. */
  function Indices(source: Bitmap, entries: seq<Color>, y: nat, n: nat): (idx: seq<byte>)
    requires WellFormed(source) && y < source.height && n <= source.width
    ensures |idx| == n
  {
    if n == 0 then [] else Indices(source, entries, y, n - 1) + [PixelIndex(source, entries, y, n - 1)]
  }

  /** The indices of the whole of row `y`. */
  function RowIndices(source: Bitmap, entries: seq<Color>, y: nat): (idx: seq<byte>)
    requires WellFormed(source) && y < source.height
    ensures |idx| == source.width
  {
    Indices(source, entries, y, source.width)
  }

  lemma {:induction false} IndicesAt(source: Bitmap, entries: seq<Color>, y: nat, n: nat, x: nat)
    requires WellFormed(source) && y < source.height && x < n <= source.width
    ensures Indices(source, entries, y, n)[x] == PixelIndex(source, entries, y, x)
  {
    if x < n - 1 {
      IndicesAt(source, entries, y, n - 1, x);
    }
  }

  /** Entry `x` of row `y`'s indices is pixel (x, y)'s index. */
  lemma RowIndexIs(source: Bitmap, entries: seq<Color>, y: nat, x: nat)
    requires WellFormed(source) && y < source.height && x < source.width
    ensures RowIndices(source, entries, y)[x] == PixelIndex(source, entries, y, x)
  {
    IndicesAt(source, entries, y, source.width, x);
  }

  /** The rows of the target, top to bottom: each source row's indices
      packed at `obpp` bits per pixel. */
  function PackedRows(source: Bitmap, obpp: nat, entries: seq<Color>): (rows: seq<seq<byte>>)
    requires WellFormed(source)
    ensures |rows| == source.height && Uniform(rows, Stride(source.width, obpp))
  {
    seq(source.height, y requires 0 <= y < source.height =>
      PackRow(obpp, RowIndices(source, entries, y), Stride(source.width, obpp)))
  }

  lemma PackedRowIs(source: Bitmap, obpp: nat, entries: seq<Color>, rows: seq<seq<byte>>, y: nat)
    requires WellFormed(source) && rows == PackedRows(source, obpp, entries) && y < source.height
    ensures y < |rows| && rows[y] == PackRow(obpp, RowIndices(source, entries, y), Stride(source.width, obpp))
  {
  }

  /** The first `n` target rows, each packed at `obpp` bits per pixel. */
  function Rows(source: Bitmap, obpp: nat, entries: seq<Color>, n: nat): (s: seq<byte>)
    requires WellFormed(source) && n <= source.height
  {
    Layout(PackedRows(source, obpp, entries), Stride(source.width, obpp), n)
  }

  /** Row `y` of the target is row `y`'s indices, packed. */
  lemma RowsSlice(source: Bitmap, obpp: nat, entries: seq<Color>, y: nat)
    requires WellFormed(source) && y < source.height
    ensures var st, scan := Stride(source.width, obpp), Rows(source, obpp, entries, source.height);
      Area(st, y) + st <= |scan| && scan[Area(st, y)..Area(st, y) + st] == PackRow(obpp, RowIndices(source, entries, y), st)
  {
    var st, rows := Stride(source.width, obpp), PackedRows(source, obpp, entries);
    PackedRowIs(source, obpp, entries, rows, y);
    LayoutSlice(rows, st, source.height, y);
  }

  /** `i` is the index of a palette entry nearest to `c`. */
  predicate Nearest(c: Rgb, entries: seq<Color>, i: nat)
  {
    && i < |entries|
    && forall j | 0 <= j < |entries| ::
         DistanceSquared(c.r, c.g, c.b, entries[i]) <= DistanceSquared(c.r, c.g, c.b, entries[j])
  }

  function PixelColor(source: Bitmap, y: nat, x: nat): Rgb
    requires WellFormed(source) && y < source.height && x < source.width
  {
    var s := PixelSample(source, y, x);
    Rgb(s.r, s.g, s.b)
  }

  /** The index of pixel (x, y) is that of a nearest palette entry. */
  lemma PixelNearest(source: Bitmap, entries: seq<Color>, y: nat, x: nat)
    requires WellFormed(source) && y < source.height && x < source.width && 1 <= |entries| <= 256
    ensures Nearest(PixelColor(source, y, x), entries, RowIndices(source, entries, y)[x] as nat)
  {
    RowIndexIs(source, entries, y, x);
    IndexByteIsNearest(PixelColor(source, y, x), entries);
  }

  /** A row of `width` pixels fits in its stride at 1, 4 or 8 bpp. */
  lemma RowFits(width: nat, bpp: nat, x: nat)
    requires x < width && (bpp == 1 || bpp == 4 || bpp == 8)
    ensures x * bpp / 8 < Stride(width, bpp)
  {
    StrideIsLeastDwordRow(width, bpp);
    var st := Stride(width, bpp);
    assert x * bpp < width * bpp by {
      OctreeQuantizer.MulMono(x + 1, width, bpp);
    }
  }

  /** Byte `k` of target row `y` inside the whole target. */
  lemma RowByte(source: Bitmap, obpp: nat, entries: seq<Color>, y: nat, k: nat)
    requires WellFormed(source) && y < source.height && k < Stride(source.width, obpp)
    ensures var st, scan := Stride(source.width, obpp), Rows(source, obpp, entries, source.height);
      && Area(st, y) + k < |scan|
      && scan[Area(st, y) + k] == PackRow(obpp, RowIndices(source, entries, y), st)[k]
  {
    var rows := PackedRows(source, obpp, entries);
    PackedRowIs(source, obpp, entries, rows, y);
    LayoutByte(rows, Stride(source.width, obpp), source.height, y, k);
  }

  /** At 8 bpp byte `x` of target row `y` is the index of a palette entry
      nearest to source pixel (x, y). */
  lemma Converted8(source: Bitmap, entries: seq<Color>, y: nat, x: nat)
    requires WellFormed(source) && y < source.height && x < source.width
    requires 1 <= |entries| <= 256
    ensures var st, scan := Stride(source.width, 8), Rows(source, 8, entries, source.height);
      && Area(st, y) + x < |scan|
      && Nearest(PixelColor(source, y, x), entries, scan[Area(st, y) + x] as nat)
  {
    Target8Byte(source, entries, y, x);
    PixelNearest(source, entries, y, x);
  }

  /** At 8 bpp byte `x` of target row `y` is pixel (x, y)'s index. */
  lemma Target8Byte(source: Bitmap, entries: seq<Color>, y: nat, x: nat)
    requires WellFormed(source) && y < source.height && x < source.width
    ensures var st, scan := Stride(source.width, 8), Rows(source, 8, entries, source.height);
      && Area(st, y) + x < |scan|
      && scan[Area(st, y) + x] == RowIndices(source, entries, y)[x]
  {
    var st := Stride(source.width, 8);
    Fits8(source.width, x);
    RowByte(source, 8, entries, y, x);
    Byte8Reads(source, entries, y, x, st);
  }

  /** An 8 bpp row holds a byte per pixel. */
  lemma Fits8(width: nat, x: nat)
    requires x < width
    ensures x < Stride(width, 8) && width <= Stride(width, 8)
  {
    RowFits(width, 8, width - 1);
    assert (width - 1) * 8 / 8 == width - 1;
  }

  /** A 4 bpp row holds a byte per two pixels. */
  lemma Fits4(width: nat, x: nat)
    requires x < width
    ensures x / 2 < Stride(width, 4)
  {
    RowFits(width, 4, x);
    assert x * 4 / 8 == x / 2;
  }

  lemma Byte8Reads(source: Bitmap, entries: seq<Color>, y: nat, x: nat, st: nat)
    requires WellFormed(source) && y < source.height && x < source.width <= st
    ensures PackRow(8, RowIndices(source, entries, y), st)[x] == RowIndices(source, entries, y)[x]
  {
    Pack8Reads(RowIndices(source, entries, y), st);
  }

  /** The nibble of byte `b` that pixel `x` of a 4 bpp row occupies: the
      high one for even `x`, the low one for odd `x`. */
  function Nibble(b: byte, x: nat): byte
  {
    if x % 2 == 0 then b >> 4 else b & 0x0F
  }

  /** At 4 bpp pixel (x, y) is its nibble of byte `x / 2` of target row
      `y`, and it holds the index of a nearest entry of a palette of at
      most 16 colours. */
  lemma Converted4(source: Bitmap, entries: seq<Color>, y: nat, x: nat)
    requires WellFormed(source) && y < source.height && x < source.width
    requires 1 <= |entries| <= 16
    ensures var st, scan := Stride(source.width, 4), Rows(source, 4, entries, source.height);
      && Area(st, y) + x / 2 < |scan|
      && Nearest(PixelColor(source, y, x), entries, Nibble(scan[Area(st, y) + x / 2], x) as nat)
  {
    Target4Nibble(source, entries, y, x);
    PixelNearest(source, entries, y, x);
  }

  /** At 4 bpp pixel (x, y)'s nibble of byte `x / 2` of target row `y` is
      its index, when the palette has at most 16 colours. */
  lemma Target4Nibble(source: Bitmap, entries: seq<Color>, y: nat, x: nat)
    requires WellFormed(source) && y < source.height && x < source.width
    requires 1 <= |entries| <= 16
    ensures var st, scan := Stride(source.width, 4), Rows(source, 4, entries, source.height);
      && Area(st, y) + x / 2 < |scan|
      && Nibble(scan[Area(st, y) + x / 2], x) == RowIndices(source, entries, y)[x]
  {
    var st, scan := Stride(source.width, 4), Rows(source, 4, entries, source.height);
    Fits4(source.width, x);
    RowByte(source, 4, entries, y, x / 2);
    Nibble4(source, entries, y, x, st, scan[Area(st, y) + x / 2]);
  }

  lemma Nibble4(source: Bitmap, entries: seq<Color>, y: nat, x: nat, st: nat, b: byte)
    requires WellFormed(source) && y < source.height && x < source.width && x / 2 < st
    requires 1 <= |entries| <= 16
    requires b == PackRow(4, RowIndices(source, entries, y), st)[x / 2]
    ensures Nibble(b, x) == RowIndices(source, entries, y)[x]
  {
    var idx := RowIndices(source, entries, y);
    forall j | 0 <= j < |idx| ensures idx[j] < 16 {
      PixelNearest(source, entries, y, j);
    }
    Pack4Reads(idx, st, x);
  }

  /** FindNearestColor over the black and white palette picks white exactly
      when white is strictly nearer. */
  lemma MonochromeIndex(c: Rgb)
    ensures IndexByte(c, MonochromePalette) == 1 <==>
      DistanceSquared(c.r, c.g, c.b, MonochromePalette[1]) < DistanceSquared(c.r, c.g, c.b, MonochromePalette[0])
  {
    var n := NearestIndex(c.r, c.g, c.b, MonochromePalette);
    NearestIsLowestArgmin(c.r, c.g, c.b, MonochromePalette);
    ByteOfNat(n);
    assert n == 0 || n == 1;
  }

  /** Pixel (x, y) is white in the 1 bpp target's index row exactly when
      white is strictly nearer to it than black. */
  lemma MonochromePixel(source: Bitmap, y: nat, x: nat)
    requires WellFormed(source) && y < source.height && x < source.width
    ensures var c := PixelColor(source, y, x);
      RowIndices(source, MonochromePalette, y)[x] == 1 <==>
        DistanceSquared(c.r, c.g, c.b, MonochromePalette[1]) < DistanceSquared(c.r, c.g, c.b, MonochromePalette[0])
  {
    RowIndexIs(source, MonochromePalette, y, x);
    MonochromeIndex(PixelColor(source, y, x));
  }

  /** The palette the octree quantizer hands back at 4 and 8 bpp: the stock
      table's entry 0, then transparent black. */
  predicate QuantizedPalette(entries: seq<Color>, stock: seq<Color>)
  {
    && |entries| == |stock| && |entries| >= 2 && entries[0] == stock[0]
    && forall i | 1 <= i < |entries| :: entries[i] == TransparentBlack
  }

  /** Over such a palette the nearest index is 0 or 1: 1 exactly when black
      is strictly nearer than entry 0, so never when entry 0 is black. */
  lemma QuantizedIndex(c: Rgb, entries: seq<Color>, stock: seq<Color>)
    requires QuantizedPalette(entries, stock)
    ensures IndexByte(c, entries) ==
      if DistanceSquared(c.r, c.g, c.b, TransparentBlack) < DistanceSquared(c.r, c.g, c.b, entries[0]) then 1 else 0
    ensures entries[0].r == 0 && entries[0].g == 0 && entries[0].b == 0 ==> IndexByte(c, entries) == 0
  {
    NearestOfRepeats(c.r, c.g, c.b, entries);
    ByteOfNat(NearestIndex(c.r, c.g, c.b, entries));
    if entries[0].r == 0 && entries[0].g == 0 && entries[0].b == 0 {
      assert DistanceSquared(c.r, c.g, c.b, entries[0]) == DistanceSquared(c.r, c.g, c.b, entries[1]);
    }
  }

  /** Over entries that repeat from index 1 on, the nearest index is 0 or
      1, and 0 exactly when entry 0 is at least as near as entry 1. */
  lemma NearestOfRepeats(r: byte, g: byte, b: byte, entries: seq<Color>)
    requires |entries| >= 2 && forall i | 1 <= i < |entries| :: entries[i] == entries[1]
    ensures var n := NearestIndex(r, g, b, entries);
      n < 2 && (n == 0 <==> DistanceSquared(r, g, b, entries[0]) <= DistanceSquared(r, g, b, entries[1]))
  {
    NearestIsLowestArgmin(r, g, b, entries);
    var n := NearestIndex(r, g, b, entries);
    assert n == 0 || entries[n] == entries[1];
  }

  /** Every pixel of a 4 or 8 bpp target over that palette has index 0 or 1. */
  lemma QuantizedPixel(source: Bitmap, entries: seq<Color>, stock: seq<Color>, y: nat, x: nat)
    requires WellFormed(source) && y < source.height && x < source.width
    requires QuantizedPalette(entries, stock)
    ensures var c := PixelColor(source, y, x);
      RowIndices(source, entries, y)[x] ==
        if DistanceSquared(c.r, c.g, c.b, TransparentBlack) < DistanceSquared(c.r, c.g, c.b, entries[0]) then 1 else 0
  {
    RowIndexIs(source, entries, y, x);
    QuantizedIndex(PixelColor(source, y, x), entries, stock);
  }

  /** At 1 bpp pixel (x, y) with `x >= 1` sets bit `0x80 >> ((x - 1) & 7)`
      of byte `(x - 1) / 8` of target row `y` exactly when white is nearer
      to it than black. */
  lemma Converted1(source: Bitmap, y: nat, x: nat)
    requires WellFormed(source) && y < source.height && 1 <= x < source.width
    ensures var st, scan := Stride(source.width, 1), Rows(source, 1, MonochromePalette, source.height);
      && Area(st, y) + (x - 1) / 8 < |scan|
      && var c := PixelColor(source, y, x);
         (scan[Area(st, y) + (x - 1) / 8] & Mask(BitIndex1(x)) != 0) <==>
           DistanceSquared(c.r, c.g, c.b, MonochromePalette[1]) < DistanceSquared(c.r, c.g, c.b, MonochromePalette[0])
  {
    Target1Bit(source, MonochromePalette, y, x);
    MonochromePixel(source, y, x);
  }

  /** The bit pixel (x, y) with `x >= 1` leaves in the 1 bpp target is set
      exactly when its index is 1. */
  lemma Target1Bit(source: Bitmap, entries: seq<Color>, y: nat, x: nat)
    requires WellFormed(source) && y < source.height && 1 <= x < source.width
    ensures Area(Stride(source.width, 1), y) + (x - 1) / 8 < |Rows(source, 1, entries, source.height)|
    ensures var st, scan := Stride(source.width, 1), Rows(source, 1, entries, source.height);
      (scan[Area(st, y) + (x - 1) / 8] & Mask(BitIndex1(x)) != 0) <==> RowIndices(source, entries, y)[x] == 1
  {
    var st, scan := Stride(source.width, 1), Rows(source, 1, entries, source.height);
    Fits1(source.width, x);
    RowByte(source, 1, entries, y, (x - 1) / 8);
    Bit1Reads(RowIndices(source, entries, y), st, x, scan[Area(st, y) + (x - 1) / 8]);
  }

  /** A 1 bpp row holds a byte per eight pixels. */
  lemma Fits1(width: nat, x: nat)
    requires 1 <= x < width
    ensures (x - 1) / 8 < Stride(width, 1)
  {
    RowFits(width, 1, x - 1);
    assert (x - 1) * 1 / 8 == (x - 1) / 8;
  }

  lemma Bit1Reads(idx: seq<byte>, st: nat, x: nat, b: byte)
    requires 1 <= x < |idx| && (x - 1) / 8 < st && b == PackRow(1, idx, st)[(x - 1) / 8]
    ensures (b & Mask(BitIndex1(x)) != 0) <==> idx[x] == 1
  {
    Pack1Reads(idx, st, x);
  }

  /** At 1 bpp pixel (0, y) reaches the target only in rows of at most eight
      pixels, as the lowest bit of the row's first byte. */
  lemma Converted1First(source: Bitmap, y: nat)
    requires WellFormed(source) && y < source.height && 1 <= source.width <= 8
    ensures var st, scan := Stride(source.width, 1), Rows(source, 1, MonochromePalette, source.height);
      && Area(st, y) < |scan|
      && var c := PixelColor(source, y, 0);
         (scan[Area(st, y)] & 0x01 != 0) <==>
           DistanceSquared(c.r, c.g, c.b, MonochromePalette[1]) < DistanceSquared(c.r, c.g, c.b, MonochromePalette[0])
  {
    Target1First(source, MonochromePalette, y);
    MonochromePixel(source, y, 0);
  }

  lemma Target1First(source: Bitmap, entries: seq<Color>, y: nat)
    requires WellFormed(source) && y < source.height && 1 <= source.width <= 8
    ensures var st, scan := Stride(source.width, 1), Rows(source, 1, entries, source.height);
      && Area(st, y) < |scan|
      && ((scan[Area(st, y)] & 0x01 != 0) <==> RowIndices(source, entries, y)[0] == 1)
  {
    var st := Stride(source.width, 1);
    RowFits(source.width, 1, 0);
    RowByte(source, 1, entries, y, 0);
    Pack1FirstPixel(RowIndices(source, entries, y), st, Rows(source, 1, entries, source.height)[Area(st, y)]);
  }

  lemma ZerosSplit(a: nat, b: nat)
    ensures Zeros(a + b) == Zeros(a) + Zeros(b)
  {
  }

  /** The switch on the output format: update the byte under the cursor
      and move the cursor on. */
  method WritePixel(target: array<byte>, base: nat, cursor: nat, obpp: nat, x: nat, index: byte)
    returns (next: nat)
    requires obpp == 1 || obpp == 4 || obpp == 8
    requires base + cursor < target.Length
    modifies target
    ensures target[..] == old(target[..])[base + cursor := Written(obpp, x, old(target[base + cursor]), index)]
    ensures next == cursor + Advance(obpp, x)
  {
    var v := target[base + cursor];
    if obpp == 1 {
      v := SetBit1(v, x, index);
      next := cursor + if x % 8 == 0 && x != 0 then 1 else 0;
    } else if obpp == 4 {
      v := SetNibble(v, x, index);
      next := cursor + x % 2;
    } else {
      v := index;
      next := cursor + 1;
    }
    target[base + cursor] := v;
  }

  /** The 1 bpp case: set or clear bit `0x80 >> ((x - 1) & 7)`. */
  method SetBit1(v: byte, x: nat, index: byte) returns (w: byte)
    ensures w == Written(1, x, v, index)
  {
    var mask := Mask(BitIndex1(x));
    if index == 1 {
      w := v | mask;
    } else {
      w := v & (mask ^ 0xFF);
    }
  }

  /** The 4 bpp case: OR the index into the high nibble for even `x`, the
      low one for odd `x`. */
  method SetNibble(v: byte, x: nat, index: byte) returns (w: byte)
    ensures w == Written(4, x, v, index)
  {
    w := v | (index << Shift4(x));
  }

  /** WritePixel on a row that sits between `pre` and `post` in the target
      and holds the pixels `written` so far. */
  method PutPixel(target: array<byte>, base: nat, cursor: nat, obpp: nat, x: nat, index: byte,
                  ghost pre: seq<byte>, ghost post: seq<byte>, ghost written: seq<byte>, stride: nat)
    returns (next: nat)
    requires obpp == 1 || obpp == 4 || obpp == 8
    requires |written| == x && cursor == CursorBefore(obpp, x) && cursor < stride
    requires base == |pre| && target[..] == pre + PackRow(obpp, written, stride) + post
    modifies target
    ensures next == CursorBefore(obpp, x + 1)
    ensures target[..] == pre + PackRow(obpp, written + [index], stride) + post
  {
    ghost var before := target[..];
    next := WritePixel(target, base, cursor, obpp, x, index);
    CursorStep(obpp, x);
    RowStep(pre, post, obpp, written, index, stride, before, target[..], cursor);
  }

  /** How far the write position moves after pixel `x`. */
  function Advance(bpp: nat, x: nat): nat
  {
    if bpp == 1 then (if x % 8 == 0 && x != 0 then 1 else 0)
    else if bpp == 4 then x % 2
    else 1
  }

  /** The moves of the write position keep it where CursorBefore says. */
  lemma CursorStep(bpp: nat, x: nat)
    requires bpp == 1 || bpp == 4 || bpp == 8
    ensures CursorBefore(bpp, x + 1) == CursorBefore(bpp, x) + Advance(bpp, x)
  {
  }

  /** Writing pixel `|written|` into a row embedded in the target. */
  lemma RowStep(pre: seq<byte>, post: seq<byte>, obpp: nat, written: seq<byte>, index: byte, stride: nat,
                before: seq<byte>, after: seq<byte>, c: nat)
    requires obpp == 1 || obpp == 4 || obpp == 8
    requires before == pre + PackRow(obpp, written, stride) + post
    requires c == CursorBefore(obpp, |written|) && c < stride
    requires after == before[|pre| + c := Written(obpp, |written|, before[|pre| + c], index)]
    ensures after == pre + PackRow(obpp, written + [index], stride) + post
  {
    var packed := PackRow(obpp, written, stride);
    Splice(pre, packed, post, c, Written(obpp, |written|, packed[c], index));
    PackStep(obpp, written, index, stride);
  }

  lemma IndexStep(indices: seq<byte>, written: seq<byte>, x: nat, index: byte)
    requires x < |indices| && written == indices[..x] && index == indices[x]
    ensures written + [index] == indices[..x + 1]
  {
  }

  /** The fault Convert reports. */
  datatype ConvertFault =
    | NotIndexed   // the output format is not an indexed one
    | InvalidSize  // GDI+ refuses a target with a zero side
    | Crash        // a null palette (source depth the quantizer skips) is dereferenced

  datatype ConvertResult = Converted(bmp: Bitmap) | Failed(fault: ConvertFault)

  /** The palette of the target: black and white at 1 bpp, the
      OctreeQuantizer's at 4 and 8 bpp; None where the quantizer gives no
      palette or throws. */
  method ChoosePalette(source: Bitmap, outputFormat: PixelFormat, stock4: seq<Color>, stock8: seq<Color>)
    returns (entries: Option<seq<Color>>)
    requires WellFormed(source) && source.width > 0 && source.height > 0
    requires IsIndexed(outputFormat)
    requires |stock4| == 16 && |stock8| == 256
    ensures entries.None? <==> !outputFormat.Format1bppIndexed? && !DecodedDepth(BitsOf(source.format))
    ensures entries.Some? ==> |entries.value| == Pow2(BitsOf(outputFormat))
    ensures outputFormat.Format1bppIndexed? ==> entries == Some(MonochromePalette)
    ensures entries.Some? && outputFormat.Format4bppIndexed? ==> QuantizedPalette(entries.value, stock4)
    ensures entries.Some? && outputFormat.Format8bppIndexed? ==> QuantizedPalette(entries.value, stock8)
  {
    if outputFormat.Format1bppIndexed? {
      return Some(MonochromePalette);
    }
    var palette;
    ghost var tree;
    if outputFormat.Format4bppIndexed? {
      palette, tree := OctreeQuantizer.CreatePalette(source, 16, 4, stock4);
    } else {
      palette, tree := OctreeQuantizer.CreatePalette(source, 256, 8, stock8);
    }
    assert Pow2(4) == 16 && Pow2(8) == 256;
    FaultCases(palette);
    if !palette.Palette? {
      return None;
    }
    entries := Some(palette.entries);
  }

  lemma FaultCases(p: OctreeQuantizer.PaletteResult)
    ensures p.Thrown? ==>
      p == OctreeQuantizer.Thrown(OctreeQuantizer.MaxColorsOutOfRange) || p == OctreeQuantizer.Thrown(OctreeQuantizer.Crash)
  {
    if p.Thrown? {
      match p.fault
      case MaxColorsOutOfRange =>
      case Crash =>
    }
  }

  /** The zeros after the first `y` rows begin with an empty packed row. */
  lemma LayoutOpen(obpp: nat, rows: seq<seq<byte>>, st: nat, y: nat, s: seq<byte>)
    requires y < |rows| && Uniform(rows, st) && s == Layout(rows, st, y) + Zeros(Area(st, |rows| - y))
    ensures s == Layout(rows, st, y) + PackRow(obpp, [], st) + Zeros(Area(st, |rows| - y - 1))
  {
    var rest := Area(st, |rows| - y - 1);
    AreaStep(st, |rows| - y);
    ZerosSplit(st, rest);
    PackRowEmpty(obpp, st);
    assert Zeros(Area(st, |rows| - y)) == PackRow(obpp, [], st) + Zeros(rest);
  }

  /** A cache key: the raw 32-bit value of a source pixel (the 16-bit word
      for 5-5-5 pixels). */
  datatype Key = Key(bits: bv32)

  /** The two-entry palette Convert sets up for 1 bpp targets. */
  const MonochromePalette := [Color(255, 0, 0, 0), Color(255, 255, 255, 255)]

  /** The quantizer. The palette quantizer is the OctreeQuantizer and no
      dithering is done. */
  class EuclideanQuantizer {
    /** Raw source pixel value to the palette index found for it. */
    var colorMap: map<Key, byte>

    /** Every cached index is the one FindNearestColor gives for the colour
        the key stands for. */
    ghost predicate CacheValid(bpp: nat, entries: seq<Color>)
      reads this
    {
      forall k | k in colorMap :: colorMap[k] == IndexByte(KeyColor(bpp, k.bits), entries)
    }

    constructor ()
      ensures colorMap == map[]
    {
      colorMap := map[];
    }

    /** The cache lookup: TryGetValue, else FindNearestColor and Add. */
    method Lookup(s: Sample, bpp: nat, entries: seq<Color>) returns (index: byte)
      requires CacheValid(bpp, entries) && KeyColor(bpp, s.key) == Rgb(s.r, s.g, s.b)
      modifies this
      ensures CacheValid(bpp, entries)
      ensures index == IndexByte(Rgb(s.r, s.g, s.b), entries)
      ensures Key(s.key) in old(colorMap) ==> colorMap == old(colorMap)
      ensures Key(s.key) !in old(colorMap) ==> colorMap == old(colorMap)[Key(s.key) := index]
    {
      var key := Key(s.key);
      if key in colorMap {
        index := colorMap[key];
      } else {
        var nearest := FindNearestColor(s.r, s.g, s.b, entries);
        index := (nearest % 256) as byte;
        colorMap := colorMap[key := index];
      }
    }

    /** Pixel `x` of row `y` is read, then looked up in the cache or matched
        and cached. */
    method ReadIndex(source: Bitmap, y: nat, x: nat, row: seq<byte>, entries: seq<Color>, last: Sample)
      returns (next: Sample, index: byte)
      requires WellFormed(source) && y < source.height && x < source.width && row == SourceRow(source, y)
      requires CacheValid(BitsOf(source.format), entries)
      requires !DecodedDepth(BitsOf(source.format)) ==> last == NoSample
      modifies this
      ensures CacheValid(BitsOf(source.format), entries)
      ensures !DecodedDepth(BitsOf(source.format)) ==> next == NoSample
      ensures index == RowIndices(source, entries, y)[x]
    {
      var bpp := BitsOf(source.format);
      PixelFacts(source, entries, y, x, row, last);
      next := GetRgb(row, bpp, x, last);
      index := Lookup(next, bpp, entries);
    }

    /** The inner loop over row `y`: every pixel is read, looked up in the
        cache or matched and cached, and written at the cursor. `base` is
        where the row starts in the target. */
    method ConvertRow(source: Bitmap, y: nat, obpp: nat, entries: seq<Color>, target: array<byte>, base: nat,
                      last: Sample, ghost rows: seq<seq<byte>>, ostride: nat, ghost pre: seq<byte>, ghost post: seq<byte>)
      returns (next: Sample)
      requires WellFormed(source) && y < source.height
      requires obpp == 1 || obpp == 4 || obpp == 8
      requires CacheValid(BitsOf(source.format), entries)
      requires !DecodedDepth(BitsOf(source.format)) ==> last == NoSample
      requires ostride == Stride(source.width, obpp)
      requires y < |rows| && rows[y] == PackRow(obpp, RowIndices(source, entries, y), ostride)
      requires base == |pre| && target[..] == pre + PackRow(obpp, [], ostride) + post
      modifies this, target
      ensures CacheValid(BitsOf(source.format), entries)
      ensures !DecodedDepth(BitsOf(source.format)) ==> next == NoSample
      ensures target[..] == pre + rows[y] + post
    {
      var bpp := BitsOf(source.format);
      var row := SourceRow(source, y);
      ghost var indices := RowIndices(source, entries, y);
      ghost var written: seq<byte> := [];
      var cursor := 0;
      next := last;
      var x := 0;
      while x < source.width
        invariant x <= source.width && written == indices[..x]
        invariant cursor == CursorBefore(obpp, x)
        invariant CacheValid(bpp, entries)
        invariant !DecodedDepth(bpp) ==> next == NoSample
        invariant target[..] == pre + PackRow(obpp, written, ostride) + post
      {
        var index;
        next, index := ReadIndex(source, y, x, row, entries, next);
        CursorInRow(obpp, source.width, x);
        cursor := PutPixel(target, base, cursor, obpp, x, index, pre, post, written, ostride);
        IndexStep(indices, written, x, index);
        written := written + [index];
        x := x + 1;
      }
      assert indices[..x] == indices;
    }

    /** The outer loop: every row, top to bottom, into a zeroed target.
        The channel variables live across rows, as in the source. */
    method ConvertRows(source: Bitmap, obpp: nat, entries: seq<Color>, target: array<byte>)
      requires WellFormed(source) && (obpp == 1 || obpp == 4 || obpp == 8)
      requires CacheValid(BitsOf(source.format), entries)
      requires target[..] == Zeros(Area(Stride(source.width, obpp), source.height))
      modifies this, target
      ensures CacheValid(BitsOf(source.format), entries)
      ensures target[..] == Rows(source, obpp, entries, source.height)
    {
      var bpp := BitsOf(source.format);
      var ostride := Stride(source.width, obpp);
      ghost var rows := PackedRows(source, obpp, entries);
      var last := NoSample;
      var y := 0;
      while y < source.height
        invariant y <= source.height
        invariant CacheValid(bpp, entries)
        invariant !DecodedDepth(bpp) ==> last == NoSample
        invariant target[..] == Layout(rows, ostride, y) + Zeros(Area(ostride, |rows| - y))
      {
        ghost var rest := Area(ostride, |rows| - y - 1);
        LayoutOpen(obpp, rows, ostride, y, target[..]);
        PackedRowIs(source, obpp, entries, rows, y);
        last := ConvertRow(source, y, obpp, entries, target, Area(ostride, y), last,
                           rows, ostride, Layout(rows, ostride, y), Zeros(rest));
        var next := y + 1;
        LayoutGrow(rows, ostride, y, next, target[..]);
        y := next;
      }
      LayoutDone(rows, ostride, target[..]);
    }

    /** Convert with the quantizer's own palette depth: `stock4` and
        `stock8` are the colour tables GDI+ gives new 4 and 8 bpp bitmaps,
        which the palette quantizer starts from. */
    method Convert(source: Bitmap, outputFormat: PixelFormat, stock4: seq<Color>, stock8: seq<Color>)
      returns (res: ConvertResult)
      requires WellFormed(source)
      requires |stock4| == 16 && |stock8| == 256
      modifies this
      ensures res == Failed(NotIndexed) <==> !IsIndexed(outputFormat)
      ensures res == Failed(InvalidSize) <==>
        IsIndexed(outputFormat) && (source.width == 0 || source.height == 0)
      ensures res == Failed(Crash) <==>
        && IsIndexed(outputFormat) && source.width > 0 && source.height > 0
        && !outputFormat.Format1bppIndexed? && !DecodedDepth(BitsOf(source.format))
      ensures res.Converted? ==>
        var obpp, bmp := BitsOf(outputFormat), res.bmp;
        && bmp.width == source.width && bmp.height == source.height && bmp.format == outputFormat
        && WellFormed(bmp)
        && |bmp.palette| == Pow2(obpp)
        && (outputFormat.Format1bppIndexed? ==> bmp.palette == MonochromePalette)
        && (outputFormat.Format4bppIndexed? ==> QuantizedPalette(bmp.palette, stock4))
        && (outputFormat.Format8bppIndexed? ==> QuantizedPalette(bmp.palette, stock8))
        && bmp.scan == Rows(source, obpp, bmp.palette, source.height)
    {
      if !IsIndexed(outputFormat) {
        return Failed(NotIndexed);
      }
      if source.width == 0 || source.height == 0 {
        return Failed(InvalidSize);
      }
      colorMap := map[];
      var obpp := BitsOf(outputFormat);
      var chosen := ChoosePalette(source, outputFormat, stock4, stock8);
      if chosen.None? {
        return Failed(Crash);
      }
      var entries := chosen.value;
      var ostride := Stride(source.width, obpp);
      var target := new byte[Area(ostride, source.height)](_ => 0);
      assert target[..] == Zeros(Area(ostride, source.height));
      ConvertRows(source, obpp, entries, target);
      res := Converted(Bitmap(source.width, source.height, outputFormat, ostride, target[..], entries));
    }
  }
}
