/** Bytes, powers of two and the little-endian integer codecs that the
    Windows DIB and icon structures are written with. */
module Bytes {

  type byte = bv8

  /** 2^n. */
  function Pow2(n: nat): (r: nat)
    ensures r >= 1
  {
    if n == 0 then 1 else 2 * Pow2(n - 1)
  }

  predicate IsU16(v: int) { 0 <= v < 0x1_0000 }

  predicate IsU32(v: int) { 0 <= v < 0x1_0000_0000 }

  /** A 16-bit value as two little-endian bytes. */
  function U16Le(v: nat): (s: seq<byte>)
    requires IsU16(v)
    ensures |s| == 2
  {
    [(v % 256) as byte, (v / 256) as byte]
  }

  /** A 32-bit value as four little-endian bytes. */
  function U32Le(v: nat): (s: seq<byte>)
    requires IsU32(v)
    ensures |s| == 4
  {
    U16Le(v % 0x1_0000) + U16Le(v / 0x1_0000)
  }

  function ReadU16Le(s: seq<byte>, at: nat): (v: nat)
    requires at + 2 <= |s|
    ensures IsU16(v)
  {
    s[at] as nat + 256 * s[at + 1] as nat
  }

  function ReadU32Le(s: seq<byte>, at: nat): (v: nat)
    requires at + 4 <= |s|
    ensures IsU32(v)
  {
    ReadU16Le(s, at) + 0x1_0000 * ReadU16Le(s, at + 2)
  }

  lemma ByteOfNat(n: nat)
    requires n < 256
    ensures (n as byte) as nat == n
  {
    assert n % 256 == n;
  }

  /** `n` zero bytes: what a freshly allocated .NET byte array holds. */
  function Zeros(n: nat): (s: seq<byte>)
    ensures |s| == n && forall i | 0 <= i < n :: s[i] == 0
  {
    seq(n, _ => 0)
  }

  /** The widths of the Win32 structure fields. */
  type u16 = v: int | 0 <= v < 0x1_0000
  type u32 = v: int | 0 <= v < 0x1_0000_0000
  type i32 = v: int | -0x8000_0000 <= v < 0x8000_0000

  predicate IsI32(v: int) { -0x8000_0000 <= v < 0x8000_0000 }

  /** A C# `(uint)` conversion, or a `uint` result of unchecked arithmetic:
      the value modulo 2^32. */
  function UInt32(v: int): (r: u32)
    ensures (v - r) % 0x1_0000_0000 == 0
    ensures IsU32(v) ==> r == v
  {
    v % 0x1_0000_0000
  }

  /** A C# `(int)` conversion, or an `int` result of unchecked arithmetic:
      the two's-complement reading of the value modulo 2^32. */
  function Int32(v: int): (r: i32)
    ensures (v - r) % 0x1_0000_0000 == 0
    ensures IsI32(v) ==> r == v
  {
    var m := v % 0x1_0000_0000;
    if m < 0x8000_0000 then m else m - 0x1_0000_0000
  }

  /** Converting an `int` result to `uint` gives the same bits either way. */
  lemma UIntOfInt(v: int)
    ensures UInt32(Int32(v)) == UInt32(v)
  {
  }

  /** A signed value survives the trip through its unsigned bits. */
  lemma IntOfUInt(v: i32)
    ensures Int32(UInt32(v)) == v
  {
    if v < 0 {
      var q, m := v / 0x1_0000_0000, v % 0x1_0000_0000;
      assert v == 0x1_0000_0000 * q + m && 0 <= m < 0x1_0000_0000;
      assert q == -1;
    }
  }

  /** A two-byte value at the front of a stream reads back. */
  lemma U16Front(v: nat, rest: seq<byte>)
    requires IsU16(v)
    ensures ReadU16Le(U16Le(v) + rest, 0) == v
  {
    var s := U16Le(v) + rest;
    assert s[0] == U16Le(v)[0] && s[1] == U16Le(v)[1];
    ByteOfNat(v % 256);
    ByteOfNat(v / 256);
  }

  /** A four-byte value at the front of a stream reads back. */
  lemma U32Front(v: nat, rest: seq<byte>)
    requires IsU32(v)
    ensures ReadU32Le(U32Le(v) + rest, 0) == v
  {
    var lo, hi := U16Le(v % 0x1_0000), U16Le(v / 0x1_0000);
    var s := U32Le(v) + rest;
    assert s == lo + (hi + rest);
    U16Front(v % 0x1_0000, hi + rest);
    assert s[2..] == hi + rest;
    assert ReadU16Le(s, 2) == ReadU16Le(s[2..], 0);
    U16Front(v / 0x1_0000, rest);
  }

  /** The widths of the fields of a Win32 structure: BYTE, WORD and DWORD. */
  datatype Kind = Byte | Word | Dword

  function Width(k: Kind): (n: nat)
    ensures 1 <= n <= 4
  {
    match k
    case Byte => 1
    case Word => 2
    case Dword => 4
  }

  /** The values a field of each width holds. */
  function Bound(k: Kind): nat
  {
    match k
    case Byte => 256
    case Word => 0x1_0000
    case Dword => 0x1_0000_0000
  }

  /** The bytes a run of fields of the given widths occupies. */
  function Size(ks: seq<Kind>): nat
  {
    if ks == [] then 0 else Width(ks[0]) + Size(ks[1..])
  }

  /** Values that fit the widths given for them. */
  predicate Fits(ks: seq<Kind>, vs: seq<nat>)
  {
    |vs| == |ks| && forall i | 0 <= i < |ks| :: vs[i] < Bound(ks[i])
  }

  /** A value as `width` little-endian bytes. */
  function FieldBytes(k: Kind, v: nat): (s: seq<byte>)
    requires v < Bound(k)
    ensures |s| == Width(k)
  {
    match k
    case Byte => [v as byte]
    case Word => U16Le(v)
    case Dword => U32Le(v)
  }

  /** A structure as its fields' bytes, one after the other. */
  function Encode(ks: seq<Kind>, vs: seq<nat>): (s: seq<byte>)
    requires Fits(ks, vs)
    ensures |s| == Size(ks)
  {
    if ks == [] then [] else FieldBytes(ks[0], vs[0]) + Encode(ks[1..], vs[1..])
  }

  /** One field of the given width read from the front of a stream. */
  function ReadField(s: seq<byte>, k: Kind): (v: nat)
    requires Width(k) <= |s|
    ensures v < Bound(k)
  {
    match k
    case Byte => s[0] as nat
    case Word => ReadU16Le(s, 0)
    case Dword => ReadU32Le(s, 0)
  }

  /** The fields of the given widths read one after the other from the
      front of a stream. */
  function Decode(s: seq<byte>, ks: seq<Kind>): (vs: seq<nat>)
    requires Size(ks) <= |s|
    ensures Fits(ks, vs)
  {
    if ks == [] then [] else [ReadField(s, ks[0])] + Decode(s[Width(ks[0])..], ks[1..])
  }

  /** A field at the front of a stream reads back. */
  lemma FieldFront(k: Kind, v: nat, rest: seq<byte>)
    requires v < Bound(k)
    ensures ReadField(FieldBytes(k, v) + rest, k) == v
  {
    match k
    case Byte => ByteOfNat(v);
    case Word => U16Front(v, rest);
    case Dword => U32Front(v, rest);
  }

  /** Bytes written after `head` lie right after it. */
  lemma Reassociate(head: seq<byte>, tail: seq<byte>, rest: seq<byte>)
    ensures (head + tail) + rest == head + (tail + rest)
    ensures (head + (tail + rest))[|head|..] == tail + rest
  {
  }

  /** Round trip: an encoded structure, followed by anything, decodes to
      its field values. */
  lemma {:induction false} DecodeEncode(ks: seq<Kind>, vs: seq<nat>, rest: seq<byte>)
    requires Fits(ks, vs)
    ensures Size(ks) <= |Encode(ks, vs) + rest|
    ensures Decode(Encode(ks, vs) + rest, ks) == vs
  {
    if ks != [] {
      var head, tail := FieldBytes(ks[0], vs[0]), Encode(ks[1..], vs[1..]);
      Reassociate(head, tail, rest);
      FieldFront(ks[0], vs[0], tail + rest);
      DecodeEncode(ks[1..], vs[1..], rest);
      assert vs == [vs[0]] + vs[1..];
    }
  }

  /** Byte `c` of the middle part of three concatenated runs. */
  lemma Middle(pre: seq<byte>, mid: seq<byte>, post: seq<byte>, c: nat)
    requires c < |mid|
    ensures |pre| + c < |pre + mid + post| && (pre + mid + post)[|pre| + c] == mid[c]
  {
  }

  /** Writing byte `c` of the middle part of three concatenated runs. */
  lemma Splice(pre: seq<byte>, mid: seq<byte>, post: seq<byte>, c: nat, v: byte)
    requires c < |mid|
    ensures (pre + mid + post)[|pre| + c] == mid[c]
    ensures (pre + mid + post)[|pre| + c := v] == pre + mid[c := v] + post
  {
  }
}
