/** An icon: a named list of sub-images in which no two share a size and a
    depth, with the search, add, remove and enumeration operations on it,
    and the choice of sub-images that `CreateFrom` makes from the output
    format flags. */
module SingleIcons {
  import opened Bytes
  import opened Wrappers
  import opened Drawing
  import opened ImageEncoder
  import Enums
  import AndMask
  import IconImages

  type IconImage = IconImages.IconImage

  /** What makes a sub-image unique within an icon: its size and its depth. */
  datatype ImageKey = ImageKey(size: IconImages.Size, bitCount: nat)

  /** The key a sub-image reports: its `Size` and the depth of its
      `PixelFormat`. */
  function KeyOf(img: IconImage): ImageKey
    reads img, img.encoder
  {
    HeaderKey(img.encoder.header)
  }

  /** The key of a sub-image with the given header. */
  function HeaderKey(h: Header): ImageKey
  {
    ImageKey(IconImages.SizeOf(h), BitsOf(IconImages.PixelFormatOf(h)))
  }

  /** The key under which a bitmap is added: its size and its depth. */
  function BitmapKey(bitmap: Bitmap): ImageKey
  {
    ImageKey(IconImages.Size(bitmap.width, bitmap.height), BitsOf(bitmap.format))
  }

  /** The largest width and height a sub-image may have. */
  const MaxSide := 256

  /** Why adding a bitmap fails: its key is taken, it is larger than 256
      pixels on a side, or `Set` threw. */
  datatype AddError = ImageAlreadyExists | ImageTooBig | SetFailed(error: IconImages.SetError)

  datatype Added = Added(image: IconImage) | Refused(error: AddError)

  /** The sub-image built from a bitmap reports the bitmap's key. */
  lemma BuiltKey(c: Image, bitmap: Bitmap, mask: Option<Bitmap>, key: AndMask.Key, palette: seq<RgbQuad>)
    requires IconImages.BuiltImage(c, bitmap, mask, key, palette)
    requires bitmap.width <= MaxSide && bitmap.height <= MaxSide
    ensures HeaderKey(c.header) == BitmapKey(bitmap)
  {
    IconImages.SetHeaderReadsBack(bitmap, palette);
  }

  /** The transparent colour `Add(Bitmap)` chooses: the alpha channel for
      32 bpp ARGB and premultiplied ARGB bitmaps, else the colour of the
      bitmap's top-left pixel. */
  function RuleFor(format: PixelFormat, topLeft: Color): (k: AndMask.Key)
    ensures k.KnownTransparent? <==> format == Format32bppArgb || format == Format32bppPArgb
    ensures k.Custom? ==> k.color == topLeft
  {
    if format == Format32bppArgb || format == Format32bppPArgb then AndMask.KnownTransparent
    else AndMask.Custom(topLeft)
  }

  /** Some sub-image of the list has the key. */
  ghost predicate HasKey(list: seq<IconImage>, key: ImageKey)
    reads set x | x in list, set x | x in list :: x.encoder
  {
    exists j | 0 <= j < |list| :: KeyOf(list[j]) == key
  }

  /** No two sub-images of the list share a key. */
  ghost predicate DistinctKeys(list: seq<IconImage>)
    reads set x | x in list, set x | x in list :: x.encoder
  {
    forall i, j | 0 <= i < j < |list| :: KeyOf(list[i]) != KeyOf(list[j])
  }

  /** Appending a sub-image whose key is new keeps the keys distinct. */
  lemma AppendDistinct(list: seq<IconImage>, img: IconImage)
    requires DistinctKeys(list) && !HasKey(list, KeyOf(img))
    ensures DistinctKeys(list + [img])
  {
    var l := list + [img];
    forall i, j | 0 <= i < j < |l|
      ensures KeyOf(l[i]) != KeyOf(l[j])
    {
      assert l[i] == list[i];
      if j < |list| {
        assert l[j] == list[j];
      }
    }
  }

  /** A new sub-image built from a bitmap by `Set`. */
  method Build(bitmap: Bitmap, mask: Option<Bitmap>, key: AndMask.Key, palette: seq<RgbQuad>)
    returns (img: IconImage, err: Option<IconImages.SetError>)
    requires WellFormed(bitmap) && (mask.Some? ==> WellFormed(mask.value))
    ensures fresh(img) && fresh(img.encoder) && img.encoder.format == Enums.BMP
    ensures err.None? ==> IconImages.Built(img, bitmap, mask, key, palette)
  {
    img := new IconImages.IconImage();
    err := img.Set(bitmap, mask, key, palette);
  }

  class SingleIcon {
    var name: string
    var images: seq<IconImage>

    constructor(name: string)
      ensures this.name == name && images == []
    {
      this.name := name;
      images := [];
    }

    /** No two sub-images share a key. */
    ghost predicate Distinct()
      reads this, set x | x in images, set x | x in images :: x.encoder
    {
      DistinctKeys(images)
    }

    /** `IndexOf`: the first sub-image with the given key, or -1. */
    method IndexOf(key: ImageKey) returns (index: int)
      ensures -1 <= index < |images|
      ensures index == -1 <==> forall j | 0 <= j < |images| :: KeyOf(images[j]) != key
      ensures index >= 0 ==> KeyOf(images[index]) == key && forall j | 0 <= j < index :: KeyOf(images[j]) != key
    {
      var i := 0;
      while i < |images|
        invariant 0 <= i <= |images|
        invariant forall j | 0 <= j < i :: KeyOf(images[j]) != key
      {
        if KeyOf(images[i]) == key {
          return i;
        }
        i := i + 1;
      }
      return -1;
    }

    /** The private `Add`: refuses a bitmap whose key is taken (checked
        first) or that is larger than 256 pixels on a side; otherwise builds
        a new sub-image with `Set` and appends it, after `Set` has
        succeeded, so that every failure leaves the list as it was. */
    method Add(bitmap: Bitmap, mask: Option<Bitmap>, key: AndMask.Key, palette: seq<RgbQuad>) returns (r: Added)
      requires WellFormed(bitmap) && (mask.Some? ==> WellFormed(mask.value))
      modifies this
      ensures name == old(name)
      ensures r == Refused(ImageAlreadyExists) <==> old(HasKey(images, BitmapKey(bitmap)))
      ensures r == Refused(ImageTooBig) <==>
        !old(HasKey(images, BitmapKey(bitmap))) && (bitmap.width > MaxSide || bitmap.height > MaxSide)
      ensures r.Refused? ==> images == old(images)
      ensures r.Added? ==>
        && fresh(r.image) && fresh(r.image.encoder) && images == old(images) + [r.image]
        && IconImages.Built(r.image, bitmap, mask, key, palette) && KeyOf(r.image) == BitmapKey(bitmap)
        && r.image.encoder.format == Enums.BMP
      ensures old(Distinct()) ==> Distinct()
    {
      var found := IndexOf(BitmapKey(bitmap));
      if found != -1 {
        r := Refused(ImageAlreadyExists);
      } else if bitmap.width > MaxSide || bitmap.height > MaxSide {
        r := Refused(ImageTooBig);
      } else {
        r := Append(bitmap, mask, key, palette);
      }
    }

    /** The last steps of `Add`, for a bitmap whose key is new and whose
        size is allowed. */
    method Append(bitmap: Bitmap, mask: Option<Bitmap>, key: AndMask.Key, palette: seq<RgbQuad>) returns (r: Added)
      requires WellFormed(bitmap) && (mask.Some? ==> WellFormed(mask.value))
      requires !HasKey(images, BitmapKey(bitmap)) && bitmap.width <= MaxSide && bitmap.height <= MaxSide
      modifies this
      ensures name == old(name)
      ensures r.Refused? ==> r.error.SetFailed? && images == old(images)
      ensures r.Added? ==>
        && fresh(r.image) && fresh(r.image.encoder) && images == old(images) + [r.image]
        && IconImages.Built(r.image, bitmap, mask, key, palette) && KeyOf(r.image) == BitmapKey(bitmap)
        && r.image.encoder.format == Enums.BMP
      ensures old(Distinct()) ==> Distinct()
    {
      ghost var distinct := Distinct();
      var img, err := Build(bitmap, mask, key, palette);
      if err.Some? {
        r := Refused(SetFailed(err.value));
      } else {
        BuiltKey(img.encoder.Contents(), bitmap, mask, key, palette);
        if distinct {
          AppendDistinct(images, img);
        }
        images := images + [img];
        r := Added(img);
      }
    }

    /** `Add(Bitmap)`: adds the bitmap with the transparent colour of
        `RuleFor`; a 32 bpp ARGB bitmap loaded from a PNG file is then
        stored as PNG. */
    method AddBitmap(bitmap: Bitmap, palette: seq<RgbQuad>, topLeft: Color, isPng: bool) returns (r: Added)
      requires WellFormed(bitmap)
      modifies this
      ensures name == old(name)
      ensures r.Refused? ==> images == old(images)
      ensures r.Added? ==>
        && fresh(r.image) && images == old(images) + [r.image] && KeyOf(r.image) == BitmapKey(bitmap)
        && IconImages.Built(r.image, bitmap, None, RuleFor(bitmap.format, topLeft), palette)
        && r.image.encoder.format == if isPng && RuleFor(bitmap.format, topLeft).KnownTransparent? then Enums.PNG else Enums.BMP
      ensures old(Distinct()) ==> Distinct()
    {
      var key := RuleFor(bitmap.format, topLeft);
      r := Add(bitmap, None, key, palette);
      if r.Added? && key.KnownTransparent? && isPng {
        label added:
        var _ := r.image.SetFormat(Enums.PNG);
        assert forall j | 0 <= j < |images| :: KeyOf(images[j]) == old@added(KeyOf(images[j]));
      }
    }

    /** `RemoveAt`: an index outside the list returns nothing and changes
        nothing; otherwise the sub-image at it is removed and returned,
        the others keeping their order. */
    method RemoveAt(index: int) returns (r: Option<IconImage>)
      modifies this
      ensures name == old(name)
      ensures !(0 <= index < |old(images)|) ==> r.None? && images == old(images)
      ensures 0 <= index < |old(images)| ==>
        r == Some(old(images)[index]) && images == old(images)[..index] + old(images)[index + 1..]
      ensures old(Distinct()) ==> Distinct()
    {
      if index < 0 || index >= |images| {
        return None;
      }
      r := Some(images[index]);
      ghost var before := images;
      images := images[..index] + images[index + 1..];
      forall i | 0 <= i < |images|
        ensures images[i] == before[if i < index then i else i + 1]
      {
      }
    }

    /** `Clear`: no sub-images are left. */
    method Clear()
      modifies this
      ensures name == old(name) && images == []
    {
      images := [];
    }
  }

  /** The enumerator of an icon's sub-images. */
  class Enumerator {
    const list: SingleIcon
    var index: nat
    var current: Option<IconImage>
    /** The sub-images handed out so far, in order. */
    ghost var yielded: seq<IconImage>

    constructor(list: SingleIcon)
      ensures this.list == list && index == 0 && current.None? && yielded == []
    {
      this.list := list;
      index := 0;
      current := None;
      yielded := [];
    }

    /** While the list is left alone, what has been handed out is the
        list's prefix up to the cursor, or the whole list once the
        cursor has run past its end. */
    ghost predicate InStep()
      reads this, list
    {
      if index <= |list.images| then yielded == list.images[..index]
      else yielded == list.images
    }

    /** `MoveNext`: hands out the next sub-image and advances, or, at the
        end, clears `Current`, parks the cursor past the end and answers
        false. */
    method MoveNext() returns (moved: bool)
      modifies this
      ensures moved <==> old(index) < |list.images|
      ensures moved ==>
        current == Some(list.images[old(index)]) && index == old(index) + 1 && yielded == old(yielded) + [list.images[old(index)]]
      ensures !moved ==> current.None? && index == |list.images| + 1 && yielded == old(yielded)
      ensures old(InStep()) ==> InStep()
    {
      if index < |list.images| {
        current := Some(list.images[index]);
        yielded := yielded + [list.images[index]];
        assert list.images[..index + 1] == list.images[..index] + [list.images[index]];
        index := index + 1;
        return true;
      }
      index := |list.images| + 1;
      current := None;
      return false;
    }

    /** `Reset`: back to before the first sub-image. */
    method Reset()
      modifies this
      ensures index == 0 && current.None? && yielded == []
    {
      index := 0;
      current := None;
      yielded := [];
    }
  }

  /** One sub-image `CreateFrom` adds: the source bitmap itself, the
      source resized to a square of 32 bpp, or that resized bitmap reduced
      to an indexed depth with the mask of the latest resized sub-image,
      if any (none dereferences null and throws). */
  datatype Step = FromSource | Resized(size: nat) | Quantized(size: nat, depth: nat, maskOf: Option<nat>)

  /** One conditional `Add` of `CreateFrom`, in the order of the code: the
      flag it tests, the side of the square and the depth (32 for the
      resized bitmap itself). */
  datatype Rule = Rule(flag: Enums.OutputFormat, size: nat, depth: nat)

  /** The rules in the order of the code: 64 pixels, then 48, 32, 24 and 16. */
  function Rules(): (r: seq<Rule>)
    ensures |r| == 16
  {
    seq(16, i requires 0 <= i < 16 => RuleAt(i))
  }

  /** The rule at a position of that order. */
  function RuleAt(i: int): Rule
    requires 0 <= i < 16
  {
    if i == 0 then Rule(Enums.WinXPUnpopular, 64, 32)
    else if i == 1 then Rule(Enums.WinXP, 48, 32)
    else if i == 2 then Rule(Enums.Win95, 48, 8)
    else if i == 3 then Rule(Enums.Win31, 48, 4)
    else if i == 4 then Rule(Enums.WinXP, 32, 32)
    else if i == 5 then Rule(Enums.Win95, 32, 8)
    else if i == 6 then Rule(Enums.Win31, 32, 4)
    else if i == 7 then Rule(Enums.Win30, 32, 1)
    else if i == 8 then Rule(Enums.WinXPUnpopular, 24, 32)
    else if i == 9 then Rule(Enums.Win95Unpopular, 24, 8)
    else if i == 10 then Rule(Enums.Win31Unpopular, 24, 4)
    else if i == 11 then Rule(Enums.Win30, 24, 1)
    else if i == 12 then Rule(Enums.WinXP, 16, 32)
    else if i == 13 then Rule(Enums.Win95, 16, 8)
    else if i == 14 then Rule(Enums.Win31, 16, 4)
    else Rule(Enums.Win30, 16, 1)
  }

  /** The sub-image a rule adds, given the size of the latest resized one. */
  function StepOf(r: Rule, last: Option<nat>): Step
  {
    if r.depth == 32 then Resized(r.size) else Quantized(r.size, r.depth, last)
  }

  /** The size of the latest resized sub-image once a step is added. */
  function After(step: Step, last: Option<nat>): Option<nat>
  {
    if step.Resized? then Some(step.size) else last
  }

  /** The sub-images the given rules add, in order, given the size of the
      latest resized sub-image so far. */
  function Steps(rules: seq<Rule>, format: Enums.OutputFormat, last: Option<nat>): seq<Step>
  {
    if rules == [] then []
    else if !Enums.Has(format, rules[0].flag) then Steps(rules[1..], format, last)
    else
      var head := StepOf(rules[0], last);
      [head] + Steps(rules[1..], format, After(head, last))
  }

  /** The sub-images `CreateFrom` adds for the given flags, in order. */
  function Plan(format: Enums.OutputFormat): seq<Step>
  {
    (if Enums.Has(format, Enums.Vista) then [FromSource] else []) + Steps(Rules(), format, None)
  }

  /** Why a step of `CreateFrom` throws: the reduced bitmap asks for the
      mask of a sub-image that was never added, or its `Add` fails. */
  datatype CreateFault = NullMask | AddFailed(error: AddError)

  /** What `CreateFrom` leaves: an InvalidPixelFormatException before the
      icon is cleared, or the sub-images it added, in order, and the
      exception that ended it, if any. */
  datatype Created = WrongFormat | Ran(added: seq<Step>, stop: Option<CreateFault>)

  /** The key under which a step's bitmap is added, for a source of the
      given size. */
  function StepKey(step: Step, width: nat, height: nat): ImageKey
  {
    match step
    case FromSource => ImageKey(IconImages.Size(width, height), 32)
    case Resized(size) => ImageKey(IconImages.Size(size, size), 32)
    case Quantized(size, depth, _) => ImageKey(IconImages.Size(size, size), depth)
  }

  /** The exception a step throws once the sub-images `done` are in the
      icon, checked in the order of the code: the mask of no sub-image, a
      key already taken, a side over 256 pixels, a mask whose size `Set`
      rejects. The resized and reduced bitmaps and the masks read from
      sub-images are otherwise accepted. */
  function StepFault(step: Step, done: seq<Step>, width: nat, height: nat): Option<CreateFault>
  {
    var key := StepKey(step, width, height);
    if step.Quantized? && step.maskOf.None? then Some(NullMask)
    else if exists i | 0 <= i < |done| :: StepKey(done[i], width, height) == key then
      Some(AddFailed(ImageAlreadyExists))
    else if key.size.width > MaxSide || key.size.height > MaxSide then Some(AddFailed(ImageTooBig))
    else if step.Quantized? && step.maskOf != Some(step.size) then
      Some(AddFailed(SetFailed(IconImages.InvalidMaskBitmap)))
    else None
  }

  /** `CreateFrom` from step `k` on, the steps before it added: it stops at
      the first step that throws and keeps what it added before. */
  function RunFrom(steps: seq<Step>, k: nat, width: nat, height: nat): (r: Created)
    requires k <= |steps|
    ensures r.Ran? && k <= |r.added| <= |steps| && r.added == steps[..|r.added|]
    ensures r.stop.None? <==> |r.added| == |steps|
    decreases |steps| - k
  {
    if k == |steps| then Ran(steps, None)
    else match StepFault(steps[k], steps[..k], width, height)
      case Some(fault) => Ran(steps[..k], Some(fault))
      case None => RunFrom(steps, k + 1, width, height)
  }

  /** `CreateFrom` on a source of the given pixel format and size: an
      InvalidPixelFormatException unless it is 32 bpp ARGB, else the plan
      up to the first step that throws. */
  function CreateFromPlan(source: PixelFormat, width: nat, height: nat, format: Enums.OutputFormat): (r: Created)
    ensures r.WrongFormat? <==> source != Format32bppArgb
    ensures r.Ran? ==> |r.added| <= |Plan(format)| && r.added == Plan(format)[..|r.added|]
    ensures r.Ran? ==> (r.stop.None? <==> r.added == Plan(format))
  {
    if source != Format32bppArgb then WrongFormat else RunFrom(Plan(format), 0, width, height)
  }

  /** `RunFrom` stops at the first step that throws: each step it added
      was accepted after the ones before it, and the exception it reports
      is that of the next step. */
  lemma {:induction false} RunStops(steps: seq<Step>, k: nat, width: nat, height: nat)
    requires k <= |steps|
    ensures var r := RunFrom(steps, k, width, height);
      && (forall j | k <= j < |r.added| :: StepFault(steps[j], steps[..j], width, height).None?)
      && (r.stop.Some? ==> r.stop == StepFault(steps[|r.added|], r.added, width, height))
    decreases |steps| - k
  {
    if k < |steps| && StepFault(steps[k], steps[..k], width, height).None? {
      RunStops(steps, k + 1, width, height);
    }
  }

  /** The run of a list whose first throwing step is `n` (or none, when `n`
      is its length). */
  lemma FirstFault(steps: seq<Step>, width: nat, height: nat, n: nat)
    requires n <= |steps|
    requires forall j | 0 <= j < n :: StepFault(steps[j], steps[..j], width, height).None?
    requires n < |steps| ==> StepFault(steps[n], steps[..n], width, height).Some?
    ensures RunFrom(steps, 0, width, height) ==
      Ran(steps[..n], if n < |steps| then StepFault(steps[n], steps[..n], width, height) else None)
  {
    RunStops(steps, 0, width, height);
  }

  /** The size of the latest resized sub-image among `steps`, or `init`. */
  function LatestResized(steps: seq<Step>, init: Option<nat>): Option<nat>
  {
    if steps == [] then init
    else if steps[|steps| - 1].Resized? then Some(steps[|steps| - 1].size)
    else LatestResized(steps[..|steps| - 1], init)
  }

  /** The latest resized sub-image of a list is that of its tail, starting
      from the first sub-image's size if that one was resized. */
  lemma {:induction false} LatestCons(head: Step, p: seq<Step>, init: Option<nat>)
    ensures LatestResized([head] + p, init) == LatestResized(p, After(head, init))
  {
    if p != [] {
      assert ([head] + p)[..|p|] == [head] + p[..|p| - 1];
      LatestCons(head, p[..|p| - 1], init);
    }
  }

  /** Each reduced sub-image of the list takes the mask of the latest
      resized one before it, or `init` when there is none. */
  predicate MasksFollow(s: seq<Step>, init: Option<nat>)
  {
    forall k | 0 <= k < |s| && s[k].Quantized? :: s[k].maskOf == LatestResized(s[..k], init)
  }

  /** Each reduced sub-image takes the mask of the latest resized one. */
  lemma {:induction false} StepsMasks(rules: seq<Rule>, format: Enums.OutputFormat, last: Option<nat>)
    ensures MasksFollow(Steps(rules, format, last), last)
  {
    if rules != [] {
      if !Enums.Has(format, rules[0].flag) {
        assert Steps(rules, format, last) == Steps(rules[1..], format, last);
        StepsMasks(rules[1..], format, last);
      } else {
        var head := StepOf(rules[0], last);
        var next := After(head, last);
        var rest := Steps(rules[1..], format, next);
        var s := Steps(rules, format, last);
        assert s == [head] + rest;
        StepsMasks(rules[1..], format, next);
        forall k | 0 <= k < |s| && s[k].Quantized?
          ensures s[k].maskOf == LatestResized(s[..k], last)
        {
          if k == 0 {
            assert s[..k] == [];
            assert s[k] == head;
            assert head.maskOf == last;
          } else {
            assert s[k] == rest[k - 1];
            assert rest[k - 1].maskOf == LatestResized(rest[..k - 1], next);
            assert s[..k] == [head] + rest[..k - 1];
            LatestCons(head, rest[..k - 1], last);
            assert LatestResized(s[..k], last) == LatestResized(rest[..k - 1], next);
          }
        }
      }
    }
  }

  /** In the whole plan each reduced sub-image takes the mask of the latest
      resized sub-image before it, and has none when no sub-image was
      resized yet: the source bitmap added for Vista is not remembered. */
  lemma PlanMasks(format: Enums.OutputFormat)
    ensures MasksFollow(Plan(format), None)
  {
    var p, s := Plan(format), Steps(Rules(), format, None);
    StepsMasks(Rules(), format, None);
    if Enums.Has(format, Enums.Vista) {
      forall k | 0 < k < |p| && p[k].Quantized?
        ensures p[k].maskOf == LatestResized(p[..k], None)
      {
        assert p[..k] == [FromSource] + s[..k - 1];
        LatestCons(FromSource, s[..k - 1], None);
        assert p[k] == s[k - 1];
      }
    } else {
      assert p == s;
    }
  }

  /** The size and depth of a resized or reduced sub-image. */
  function Target(s: Step): (nat, nat)
  {
    match s
    case FromSource => (0, 0)
    case Resized(size) => (size, 32)
    case Quantized(size, depth, _) => (size, depth)
  }

  /** Some rule has its flag set and names the given size and depth. */
  predicate Selected(rules: seq<Rule>, format: Enums.OutputFormat, size: nat, depth: nat)
  {
    exists j | 0 <= j < |rules| :: Enums.Has(format, rules[j].flag) && rules[j].size == size && rules[j].depth == depth
  }

  /** Some sub-image of the list has the given size and depth. */
  predicate Planned(s: seq<Step>, size: nat, depth: nat)
  {
    exists k | 0 <= k < |s| :: Target(s[k]) == (size, depth)
  }

  lemma SelectedCons(rules: seq<Rule>, format: Enums.OutputFormat, size: nat, depth: nat)
    requires rules != []
    ensures Selected(rules, format, size, depth) <==>
      (Enums.Has(format, rules[0].flag) && rules[0].size == size && rules[0].depth == depth)
      || Selected(rules[1..], format, size, depth)
  {
    var tail := rules[1..];
    if Selected(rules, format, size, depth) {
      var j :| 0 <= j < |rules| && Enums.Has(format, rules[j].flag) && rules[j].size == size && rules[j].depth == depth;
      if j > 0 {
        assert tail[j - 1] == rules[j];
      }
    }
    if Selected(tail, format, size, depth) {
      var j :| 0 <= j < |tail| && Enums.Has(format, tail[j].flag) && tail[j].size == size && tail[j].depth == depth;
      assert rules[j + 1] == tail[j];
    }
  }

  lemma PlannedCons(head: Step, rest: seq<Step>, size: nat, depth: nat)
    ensures Planned([head] + rest, size, depth) <==> Target(head) == (size, depth) || Planned(rest, size, depth)
  {
    var s := [head] + rest;
    if Planned(s, size, depth) {
      var k :| 0 <= k < |s| && Target(s[k]) == (size, depth);
      if k > 0 {
        assert rest[k - 1] == s[k];
      }
    }
    if Planned(rest, size, depth) {
      var k :| 0 <= k < |rest| && Target(rest[k]) == (size, depth);
      assert s[k + 1] == rest[k];
    }
    assert s[0] == head;
  }

  /** A sub-image is planned exactly when a rule has its flag set and
      names that sub-image. */
  lemma {:induction false} StepsTargets(rules: seq<Rule>, format: Enums.OutputFormat, last: Option<nat>, size: nat, depth: nat)
    ensures Planned(Steps(rules, format, last), size, depth) <==> Selected(rules, format, size, depth)
  {
    if rules != [] {
      SelectedCons(rules, format, size, depth);
      if !Enums.Has(format, rules[0].flag) {
        StepsTargets(rules[1..], format, last, size, depth);
      } else {
        var head := StepOf(rules[0], last);
        StepsTargets(rules[1..], format, After(head, last), size, depth);
        PlannedCons(head, Steps(rules[1..], format, After(head, last)), size, depth);
      }
    }
  }

  /** In the whole plan a size and depth are resized to or reduced to
      exactly when a rule with its flag set names them; the source bitmap
      is not one of them. `CreateFrom` adds only such sub-images, and all
      of them when no `Add` throws. */
  lemma PlanTargets(format: Enums.OutputFormat, width: nat, height: nat, size: nat, depth: nat)
    requires size > 0
    ensures Planned(Plan(format), size, depth) <==> Selected(Rules(), format, size, depth)
    ensures Planned(CreateFromPlan(Format32bppArgb, width, height, format).added, size, depth) ==>
      Selected(Rules(), format, size, depth)
    ensures CreateFromPlan(Format32bppArgb, width, height, format).stop.None? ==>
      (Planned(CreateFromPlan(Format32bppArgb, width, height, format).added, size, depth) <==>
       Selected(Rules(), format, size, depth))
  {
    var r := CreateFromPlan(Format32bppArgb, width, height, format);
    if Planned(r.added, size, depth) {
      var k :| 0 <= k < |r.added| && Target(r.added[k]) == (size, depth);
      assert Plan(format)[k] == r.added[k];
    }
    var s := Steps(Rules(), format, None);
    StepsTargets(Rules(), format, None, size, depth);
    if Enums.Has(format, Enums.Vista) {
      PlannedCons(FromSource, s, size, depth);
    } else {
      assert Plan(format) == s;
    }
  }

  /** The position of the rule with the given size and depth. */
  function RuleIndex(size: nat, depth: nat): int
  {
    (if size == 64 then 0 else if size == 48 then 1 else if size == 32 then 4 else if size == 24 then 8 else 12)
    + (if depth == 32 then 0 else if depth == 8 then 1 else if depth == 4 then 2 else 3)
  }

  /** No two rules name the same size and depth, and none names a side
      over 256 pixels. */
  lemma RulesDistinct()
    ensures forall i, j | 0 <= i < j < |Rules()| ::
      (Rules()[i].size, Rules()[i].depth) != (Rules()[j].size, Rules()[j].depth)
    ensures forall i | 0 <= i < |Rules()| :: Rules()[i].size <= MaxSide
  {
    forall i | 0 <= i < 16
      ensures RuleIndex(RuleAt(i).size, RuleAt(i).depth) == i && RuleAt(i).size <= MaxSide
    {
    }
  }

  /** No two sub-images of the list have the same size and depth. */
  predicate DistinctTargets(s: seq<Step>)
  {
    forall i, j | 0 <= i < j < |s| :: Target(s[i]) != Target(s[j])
  }

  /** Each sub-image of the list is resized or reduced, only the resized
      ones are 32 bpp, and each has the size and depth of one of the rules. */
  predicate NamedBy(s: seq<Step>, rules: seq<Rule>)
  {
    forall i | 0 <= i < |s| ::
      && !s[i].FromSource?
      && (s[i].Quantized? ==> s[i].depth != 32)
      && Names(rules, Target(s[i]))
  }

  /** One of the rules has the given size and depth. */
  predicate Names(rules: seq<Rule>, target: (nat, nat))
  {
    exists j | 0 <= j < |rules| :: (rules[j].size, rules[j].depth) == target
  }

  /** Rules naming distinct sizes and depths add sub-images of distinct
      sizes and depths, each named by one of the rules. */
  lemma {:induction false} StepsDistinct(rules: seq<Rule>, format: Enums.OutputFormat, last: Option<nat>)
    requires forall i, j | 0 <= i < j < |rules| :: (rules[i].size, rules[i].depth) != (rules[j].size, rules[j].depth)
    ensures DistinctTargets(Steps(rules, format, last))
    ensures NamedBy(Steps(rules, format, last), rules)
  {
    if rules != [] {
      var tail := rules[1..];
      assert forall i, j | 0 <= i < j < |tail| :: tail[i] == rules[i + 1] && tail[j] == rules[j + 1];
      var next := if Enums.Has(format, rules[0].flag) then After(StepOf(rules[0], last), last) else last;
      var rest := Steps(tail, format, next);
      StepsDistinct(tail, format, next);
      NamedByTail(rest, rules);
      if !Enums.Has(format, rules[0].flag) {
        assert Steps(rules, format, last) == rest;
      } else {
        var head := StepOf(rules[0], last);
        assert Steps(rules, format, last) == [head] + rest;
        StepsCons(head, rest, rules, last);
      }
    }
  }

  /** Sub-images named by the rules after the first are named by all the
      rules, and not by the first one's size and depth. */
  lemma NamedByTail(s: seq<Step>, rules: seq<Rule>)
    requires rules != [] && NamedBy(s, rules[1..])
    requires forall j | 1 <= j < |rules| :: (rules[0].size, rules[0].depth) != (rules[j].size, rules[j].depth)
    ensures NamedBy(s, rules)
    ensures forall i | 0 <= i < |s| :: Target(s[i]) != (rules[0].size, rules[0].depth)
  {
    var tail := rules[1..];
    forall i | 0 <= i < |s|
      ensures !s[i].FromSource? && (s[i].Quantized? ==> s[i].depth != 32)
      ensures Names(rules, Target(s[i]))
      ensures Target(s[i]) != (rules[0].size, rules[0].depth)
    {
      var j :| 0 <= j < |tail| && (tail[j].size, tail[j].depth) == Target(s[i]);
      assert rules[j + 1] == tail[j];
    }
  }

  /** The sub-image of the first rule, put before those of the others. */
  lemma StepsCons(head: Step, rest: seq<Step>, rules: seq<Rule>, last: Option<nat>)
    requires rules != [] && head == StepOf(rules[0], last)
    requires DistinctTargets(rest) && NamedBy(rest, rules)
    requires forall i | 0 <= i < |rest| :: Target(rest[i]) != (rules[0].size, rules[0].depth)
    ensures DistinctTargets([head] + rest)
    ensures NamedBy([head] + rest, rules)
  {
    var s := [head] + rest;
    assert forall i | 0 < i < |s| :: s[i] == rest[i - 1];
    assert Names(rules, Target(s[0])) by {
      assert (rules[0].size, rules[0].depth) == Target(s[0]);
    }
  }

  /** Each reduced sub-image of the list has the mask of its own size. */
  predicate MasksMatch(s: seq<Step>)
  {
    forall k | 0 <= k < |s| && s[k].Quantized? :: s[k].maskOf == Some(s[k].size)
  }

  /** Which step of the plan throws once the steps before it are added:
      the source bitmap when it is over 256 pixels on a side, a resized
      bitmap when the source added for Vista is a square of its size, and a
      reduced bitmap when it has no mask or the mask of another size. */
  lemma PlanStepFault(format: Enums.OutputFormat, width: nat, height: nat, k: nat)
    requires k < |Plan(format)|
    ensures var p := Plan(format);
      StepFault(p[k], p[..k], width, height) ==
        match p[k]
        case FromSource =>
          if width > MaxSide || height > MaxSide then Some(AddFailed(ImageTooBig)) else None
        case Resized(size) =>
          if Enums.Has(format, Enums.Vista) && width == size && height == size then
            Some(AddFailed(ImageAlreadyExists))
          else None
        case Quantized(size, _, mask) =>
          if mask.None? then Some(NullMask)
          else if mask != Some(size) then Some(AddFailed(SetFailed(IconImages.InvalidMaskBitmap)))
          else None
  {
    var p := Plan(format);
    var done := p[..k];
    if p[k].FromSource? {
      SourceFirst(format, k);
      assert done == [];
    } else {
      PlanKeys(format, width, height, k);
      assert forall i | 0 <= i < k :: done[i] == p[i];
      if p[k].Resized? && Enums.Has(format, Enums.Vista) && width == p[k].size && height == p[k].size {
        assert p[0] == FromSource;
        assert StepKey(done[0], width, height) == StepKey(p[k], width, height);
      }
    }
  }

  /** Before a resized or reduced step of the plan only the source bitmap
      added for Vista can have its key, when it is a square of the step's
      size; the step is at most 256 pixels on a side. */
  lemma PlanKeys(format: Enums.OutputFormat, width: nat, height: nat, k: nat)
    requires k < |Plan(format)| && !Plan(format)[k].FromSource?
    ensures StepKey(Plan(format)[k], width, height).size.width <= MaxSide
    ensures StepKey(Plan(format)[k], width, height).size.height <= MaxSide
    ensures forall i | 0 <= i < k ::
      StepKey(Plan(format)[i], width, height) == StepKey(Plan(format)[k], width, height) <==>
        && i == 0 && Enums.Has(format, Enums.Vista)
        && Plan(format)[k].Resized? && width == Plan(format)[k].size && height == Plan(format)[k].size
  {
    var p, s := Plan(format), Steps(Rules(), format, None);
    var off := if Enums.Has(format, Enums.Vista) then 1 else 0;
    assert p == (if off == 1 then [FromSource] else []) + s;
    assert forall i | off <= i < |p| :: p[i] == s[i - off];
    RulesDistinct();
    StepsDistinct(Rules(), format, None);
    assert k >= off;
    assert Names(Rules(), Target(s[k - off]));
    var j :| 0 <= j < |Rules()| && (Rules()[j].size, Rules()[j].depth) == Target(s[k - off]);
    forall i | off <= i < k
      ensures StepKey(p[i], width, height) != StepKey(p[k], width, height)
    {
      assert Target(s[i - off]) != Target(s[k - off]);
    }
  }

  /** Every step of the list is accepted after the ones before it. */
  predicate Accepted(steps: seq<Step>, width: nat, height: nat)
  {
    forall k | 0 <= k < |steps| :: StepFault(steps[k], steps[..k], width, height).None?
  }

  /** A run adds every step exactly when each is accepted in turn. */
  lemma RunsThrough(steps: seq<Step>, width: nat, height: nat)
    ensures RunFrom(steps, 0, width, height).stop.None? <==> Accepted(steps, width, height)
  {
    RunStops(steps, 0, width, height);
  }

  /** For Vista the source is at most 256 pixels on a side and is not a
      square of a size a rule resizes to. */
  predicate SourceFits(format: Enums.OutputFormat, width: nat, height: nat)
  {
    Enums.Has(format, Enums.Vista) ==>
      width <= MaxSide && height <= MaxSide && !(width == height && Selected(Rules(), format, width, 32))
  }

  /** The plan's step at `k` that is resized to the square source's size
      under Vista names a 32 bpp rule of that size. */
  lemma ResizedIsSelected(format: Enums.OutputFormat, k: nat)
    requires k < |Plan(format)| && Plan(format)[k].Resized?
    ensures Selected(Rules(), format, Plan(format)[k].size, 32)
  {
    var p, s := Plan(format), Steps(Rules(), format, None);
    var off := if Enums.Has(format, Enums.Vista) then 1 else 0;
    assert p == (if off == 1 then [FromSource] else []) + s;
    assert p[k] == s[k - off];
    StepsTargets(Rules(), format, None, p[k].size, 32);
  }

  /** The source bitmap is the plan's first step, and only under Vista. */
  lemma SourceFirst(format: Enums.OutputFormat, k: nat)
    requires k < |Plan(format)| && Plan(format)[k].FromSource?
    ensures Enums.Has(format, Enums.Vista) && k == 0
  {
    var p, s := Plan(format), Steps(Rules(), format, None);
    var off := if Enums.Has(format, Enums.Vista) then 1 else 0;
    assert p == (if off == 1 then [FromSource] else []) + s;
    assert forall i | off <= i < |p| :: p[i] == s[i - off];
    RulesDistinct();
    StepsDistinct(Rules(), format, None);
  }

  /** A 32 bpp rule of the source's size makes the plan resize to it. */
  lemma SelectedIsResized(format: Enums.OutputFormat, size: nat)
    requires Selected(Rules(), format, size, 32)
    ensures exists k | 0 <= k < |Plan(format)| :: Plan(format)[k] == Resized(size)
  {
    var p, s := Plan(format), Steps(Rules(), format, None);
    var off := if Enums.Has(format, Enums.Vista) then 1 else 0;
    assert p == (if off == 1 then [FromSource] else []) + s;
    RulesDistinct();
    StepsDistinct(Rules(), format, None);
    StepsTargets(Rules(), format, None, size, 32);
    var k :| 0 <= k < |s| && Target(s[k]) == (size, 32);
    assert p[k + off] == s[k];
  }

  /** The plan is accepted step by step exactly when the source fits and
      every reduced sub-image has the mask of its own size. */
  lemma PlanAccepted(format: Enums.OutputFormat, width: nat, height: nat)
    ensures Accepted(Plan(format), width, height) <==> SourceFits(format, width, height) && MasksMatch(Plan(format))
  {
    var p := Plan(format);
    var vista := Enums.Has(format, Enums.Vista);
    if Accepted(p, width, height) {
      if vista {
        assert p[0] == FromSource;
        PlanStepFault(format, width, height, 0);
        if width == height && Selected(Rules(), format, width, 32) {
          SelectedIsResized(format, width);
          var k :| 0 <= k < |p| && p[k] == Resized(width);
          PlanStepFault(format, width, height, k);
        }
      }
      forall k | 0 <= k < |p| && p[k].Quantized?
        ensures p[k].maskOf == Some(p[k].size)
      {
        PlanStepFault(format, width, height, k);
      }
    }
    if SourceFits(format, width, height) && MasksMatch(p) {
      forall k | 0 <= k < |p|
        ensures StepFault(p[k], p[..k], width, height).None?
      {
        PlanStepFault(format, width, height, k);
        if p[k].Resized? {
          ResizedIsSelected(format, k);
        } else if p[k].FromSource? {
          SourceFirst(format, k);
        }
      }
    }
  }

  /** `CreateFrom` on a 32 bpp ARGB source adds the whole plan exactly when
      no `Add` throws: for Vista the source is at most 256 pixels on a side
      and is not a square of a size a rule resizes to, and every reduced
      sub-image has the mask of its own size. */
  lemma CleanRun(format: Enums.OutputFormat, width: nat, height: nat)
    ensures CreateFromPlan(Format32bppArgb, width, height, format).stop.None? <==>
      SourceFits(format, width, height) && MasksMatch(Plan(format))
  {
    RunsThrough(Plan(format), width, height);
    PlanAccepted(format, width, height);
  }

  /** The default flags of `CreateFrom` (FromWin95) give the source bitmap
      and, at 48, 32 and 16 pixels, a 32 bpp sub-image and an 8 bpp one that
      takes its mask. */
  lemma DefaultPlan(width: nat, height: nat)
    ensures Plan(Enums.FromWin95) == [FromSource,
      Resized(48), Quantized(48, 8, Some(48)),
      Resized(32), Quantized(32, 8, Some(32)),
      Resized(16), Quantized(16, 8, Some(16))]
    ensures CreateFromPlan(Format32bppArgb, width, height, Enums.FromWin95) ==
      if width > MaxSide || height > MaxSide then
        Ran([], Some(AddFailed(ImageTooBig)))
      else if width == 48 && height == 48 then
        Ran([FromSource], Some(AddFailed(ImageAlreadyExists)))
      else if width == 32 && height == 32 then
        Ran([FromSource, Resized(48), Quantized(48, 8, Some(48))], Some(AddFailed(ImageAlreadyExists)))
      else if width == 16 && height == 16 then
        Ran([FromSource, Resized(48), Quantized(48, 8, Some(48)), Resized(32), Quantized(32, 8, Some(32))],
          Some(AddFailed(ImageAlreadyExists)))
      else Ran(Plan(Enums.FromWin95), None)
  {
    var f := Enums.FromWin95;
    var p := Plan(f);
    DefaultSteps();
    var n := if width > MaxSide || height > MaxSide then 0
      else if width == 48 && height == 48 then 1
      else if width == 32 && height == 32 then 3
      else if width == 16 && height == 16 then 5
      else 7;
    forall k | 0 <= k < |p| && k <= n
      ensures StepFault(p[k], p[..k], width, height).None? <==> k < n
    {
      PlanStepFault(f, width, height, k);
    }
    PlanStepFault(f, width, height, if n < 7 then n else 0);
    FirstFault(p, width, height, n);
  }

  /** The sub-images of the default flags, in order. */
  lemma DefaultSteps()
    ensures Plan(Enums.FromWin95) == [FromSource,
      Resized(48), Quantized(48, 8, Some(48)),
      Resized(32), Quantized(32, 8, Some(32)),
      Resized(16), Quantized(16, 8, Some(16))]
  {
    var f := Enums.FromWin95;
    var r := Rules();
    assert Steps(r[16..], f, Some(16)) == [];
    assert Steps(r[15..], f, Some(16)) == [];
    assert Steps(r[14..], f, Some(16)) == [];
    assert Steps(r[13..], f, Some(16)) == [Quantized(16, 8, Some(16))];
    assert Steps(r[12..], f, Some(32)) == [Resized(16), Quantized(16, 8, Some(16))];
    assert Steps(r[11..], f, Some(32)) == [Resized(16), Quantized(16, 8, Some(16))];
    assert Steps(r[10..], f, Some(32)) == [Resized(16), Quantized(16, 8, Some(16))];
    assert Steps(r[9..], f, Some(32)) == [Resized(16), Quantized(16, 8, Some(16))];
    assert Steps(r[8..], f, Some(32)) == [Resized(16), Quantized(16, 8, Some(16))];
    assert Steps(r[7..], f, Some(32)) == [Resized(16), Quantized(16, 8, Some(16))];
    assert Steps(r[6..], f, Some(32)) == [Resized(16), Quantized(16, 8, Some(16))];
    assert Steps(r[5..], f, Some(32)) == [Quantized(32, 8, Some(32)), Resized(16), Quantized(16, 8, Some(16))];
    assert Steps(r[4..], f, Some(48)) == [Resized(32), Quantized(32, 8, Some(32)), Resized(16), Quantized(16, 8, Some(16))];
    assert Steps(r[3..], f, Some(48)) == [Resized(32), Quantized(32, 8, Some(32)), Resized(16), Quantized(16, 8, Some(16))];
    assert Steps(r[2..], f, Some(48)) == [Quantized(48, 8, Some(48)), Resized(32), Quantized(32, 8, Some(32)), Resized(16), Quantized(16, 8, Some(16))];
    assert Steps(r[1..], f, None) == [Resized(48), Quantized(48, 8, Some(48)), Resized(32), Quantized(32, 8, Some(32)), Resized(16), Quantized(16, 8, Some(16))];
    assert Steps(r[0..], f, None) == [Resized(48), Quantized(48, 8, Some(48)), Resized(32), Quantized(32, 8, Some(32)), Resized(16), Quantized(16, 8, Some(16))];
    assert r[0..] == r;
  }

  /** Without the Windows XP flags no sub-image is resized before the first
      reduced one, so its mask is read from no sub-image at all. */
  lemma MissingMask(width: nat, height: nat)
    ensures Plan(Enums.Vista | Enums.Win95) == [FromSource,
      Quantized(48, 8, None), Quantized(32, 8, None), Quantized(16, 8, None)]
    ensures CreateFromPlan(Format32bppArgb, width, height, Enums.Vista | Enums.Win95) ==
      if width > MaxSide || height > MaxSide then Ran([], Some(AddFailed(ImageTooBig)))
      else Ran([FromSource], Some(NullMask))
  {
    MissingMaskSteps();
    var f := Enums.Vista | Enums.Win95;
    PlanStepFault(f, width, height, 0);
    PlanStepFault(f, width, height, 1);
    if width > MaxSide || height > MaxSide {
      FirstFault(Plan(f), width, height, 0);
    } else {
      FirstFault(Plan(f), width, height, 1);
    }
  }

  /** The sub-images of Vista and Win95 alone, in order. */
  lemma MissingMaskSteps()
    ensures Plan(Enums.Vista | Enums.Win95) == [FromSource,
      Quantized(48, 8, None), Quantized(32, 8, None), Quantized(16, 8, None)]
  {
    var f := Enums.Vista | Enums.Win95;
    var r := Rules();
    assert Steps(r[16..], f, None) == [];
    assert Steps(r[15..], f, None) == [];
    assert Steps(r[14..], f, None) == [];
    assert Steps(r[13..], f, None) == [Quantized(16, 8, None)];
    assert Steps(r[12..], f, None) == [Quantized(16, 8, None)];
    assert Steps(r[11..], f, None) == [Quantized(16, 8, None)];
    assert Steps(r[10..], f, None) == [Quantized(16, 8, None)];
    assert Steps(r[9..], f, None) == [Quantized(16, 8, None)];
    assert Steps(r[8..], f, None) == [Quantized(16, 8, None)];
    assert Steps(r[7..], f, None) == [Quantized(16, 8, None)];
    assert Steps(r[6..], f, None) == [Quantized(16, 8, None)];
    assert Steps(r[5..], f, None) == [Quantized(32, 8, None), Quantized(16, 8, None)];
    assert Steps(r[4..], f, None) == [Quantized(32, 8, None), Quantized(16, 8, None)];
    assert Steps(r[3..], f, None) == [Quantized(32, 8, None), Quantized(16, 8, None)];
    assert Steps(r[2..], f, None) == [Quantized(48, 8, None), Quantized(32, 8, None), Quantized(16, 8, None)];
    assert Steps(r[1..], f, None) == [Quantized(48, 8, None), Quantized(32, 8, None), Quantized(16, 8, None)];
    assert Steps(r[0..], f, None) == [Quantized(48, 8, None), Quantized(32, 8, None), Quantized(16, 8, None)];
    assert r[0..] == r;
  }

  /** Without WinXPUnpopular the 24 pixel reduced sub-image takes the mask of
      the 32 pixel one, whose size `Set` then rejects. */
  lemma StaleMask(width: nat, height: nat)
    ensures Plan(Enums.WinXP | Enums.Win95Unpopular) == [
      Resized(48), Resized(32), Quantized(24, 8, Some(32)), Resized(16)]
    ensures CreateFromPlan(Format32bppArgb, width, height, Enums.WinXP | Enums.Win95Unpopular) ==
      Ran([Resized(48), Resized(32)], Some(AddFailed(SetFailed(IconImages.InvalidMaskBitmap))))
  {
    StaleMaskSteps();
    var f := Enums.WinXP | Enums.Win95Unpopular;
    PlanStepFault(f, width, height, 0);
    PlanStepFault(f, width, height, 1);
    PlanStepFault(f, width, height, 2);
    FirstFault(Plan(f), width, height, 2);
  }

  /** The sub-images of WinXP and Win95Unpopular alone, in order. */
  lemma StaleMaskSteps()
    ensures Plan(Enums.WinXP | Enums.Win95Unpopular) == [
      Resized(48), Resized(32), Quantized(24, 8, Some(32)), Resized(16)]
  {
    var f := Enums.WinXP | Enums.Win95Unpopular;
    var r := Rules();
    assert Steps(r[16..], f, Some(16)) == [];
    assert Steps(r[15..], f, Some(16)) == [];
    assert Steps(r[14..], f, Some(16)) == [];
    assert Steps(r[13..], f, Some(16)) == [];
    assert Steps(r[12..], f, Some(32)) == [Resized(16)];
    assert Steps(r[11..], f, Some(32)) == [Resized(16)];
    assert Steps(r[10..], f, Some(32)) == [Resized(16)];
    assert Steps(r[9..], f, Some(32)) == [Quantized(24, 8, Some(32)), Resized(16)];
    assert Steps(r[8..], f, Some(32)) == [Quantized(24, 8, Some(32)), Resized(16)];
    assert Steps(r[7..], f, Some(32)) == [Quantized(24, 8, Some(32)), Resized(16)];
    assert Steps(r[6..], f, Some(32)) == [Quantized(24, 8, Some(32)), Resized(16)];
    assert Steps(r[5..], f, Some(32)) == [Quantized(24, 8, Some(32)), Resized(16)];
    assert Steps(r[4..], f, Some(48)) == [Resized(32), Quantized(24, 8, Some(32)), Resized(16)];
    assert Steps(r[3..], f, Some(48)) == [Resized(32), Quantized(24, 8, Some(32)), Resized(16)];
    assert Steps(r[2..], f, Some(48)) == [Resized(32), Quantized(24, 8, Some(32)), Resized(16)];
    assert Steps(r[1..], f, None) == [Resized(48), Resized(32), Quantized(24, 8, Some(32)), Resized(16)];
    assert Steps(r[0..], f, None) == [Resized(48), Resized(32), Quantized(24, 8, Some(32)), Resized(16)];
    assert r[0..] == r;
  }
}
