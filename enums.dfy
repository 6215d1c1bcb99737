/** The two enumerations the core depends on: the `IconOutputFormat` flags
    that select which sub-images `SingleIcon.CreateFrom` builds, and the
    `IconImageFormat` codes that name how a sub-image is stored. */
module Enums {
  import Wrappers

  /** An `IconOutputFormat` value: a C# `[Flags]` enum over a 32-bit int. */
  type OutputFormat = bv32

  const None: OutputFormat := 0
  const Vista: OutputFormat := 1
  const WinXP: OutputFormat := 2
  const WinXPUnpopular: OutputFormat := 4
  const Win95: OutputFormat := 8
  const Win95Unpopular: OutputFormat := 16
  const Win31: OutputFormat := 32
  const Win31Unpopular: OutputFormat := 64
  const Win30: OutputFormat := 128
  const Win30Unpopular: OutputFormat := 256

  const FromWinXP: OutputFormat := WinXP | Vista
  const FromWin95: OutputFormat := Win95 | FromWinXP
  const FromWin31: OutputFormat := Win31 | FromWin95
  const FromWin30: OutputFormat := Win30 | FromWin31
  const All: OutputFormat := FromWin31 | Win31Unpopular | Win95Unpopular | WinXPUnpopular

  /** The nine single-bit flags, in declaration order. */
  const Basic: seq<OutputFormat> :=
    [Vista, WinXP, WinXPUnpopular, Win95, Win95Unpopular, Win31, Win31Unpopular, Win30, Win30Unpopular]

  /** The test `CreateFrom` applies: `(format & flag) == flag`. */
  predicate Has(format: OutputFormat, flag: OutputFormat)
  {
    format & flag == flag
  }

  /** Flag `i` is bit `i`, so no two basic flags share a bit. */
  lemma BasicFlagsArePowersOfTwo()
    ensures |Basic| == 9
    ensures forall i | 0 <= i < |Basic| :: Basic[i] == 1 << i
    ensures forall i, j | 0 <= i < j < |Basic| :: Basic[i] & Basic[j] == 0
  {
  }

  /** The composite values, each containing every bit of the next newer one. */
  lemma CompositeValues()
    ensures FromWinXP == 3 && FromWin95 == 11 && FromWin31 == 43 && FromWin30 == 171
    ensures Has(FromWin95, FromWinXP) && Has(FromWin31, FromWin95) && Has(FromWin30, FromWin31)
  {
  }

  /** `All` is 127: every flag of Windows 95 and later, and neither 1 bpp flag. */
  lemma AllValue()
    ensures All == 127
    ensures forall i | 0 <= i < 7 :: Has(All, Basic[i])
    ensures !Has(All, Win30) && !Has(All, Win30Unpopular)
  {
  }

  /** `IconImageFormat`: how one sub-image is stored. */
  datatype ImageFormat = BMP | PNG | UNKNOWN

  /** The enum's numeric value; BMP shares 0 with the DIB compression BI_RGB. */
  function Code(f: ImageFormat): (c: nat)
    ensures c < 256
  {
    match f
    case BMP => 0
    case PNG => 5
    case UNKNOWN => 255
  }

  /** The member a numeric value names, if any. */
  function FromCode(c: nat): (f: Wrappers.Option<ImageFormat>)
    ensures f.Some? ==> Code(f.value) == c
  {
    if c == 0 then Wrappers.Some(BMP)
    else if c == 5 then Wrappers.Some(PNG)
    else if c == 255 then Wrappers.Some(UNKNOWN)
    else Wrappers.None
  }

  /** Every member is recovered from its code, so the codes are pairwise distinct. */
  lemma CodesRoundTrip(f: ImageFormat)
    ensures FromCode(Code(f)) == Wrappers.Some(f)
  {
  }
}
