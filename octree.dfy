/** The adaptive colour octree of OctreeQuantizer.
    A node is addressed by its path: the child slots (0..7) taken from the
    root to reach it. The tree is a map from path to node record, so that a
    node's `Child[i]` is present exactly when `path + [i]` is a key. The
    per-level "reducible" lists are stacks of paths whose top is the last
    element. */
module OctreeQuantizer {
  import opened Bytes
  import opened Drawing
  import opened Wrappers

  type Path = seq<nat>

  /** OctreeQuantizer.Node without its Child and Next links, which the
      path addressing and the per-level stacks stand for. */
  datatype Node = Node(isLeaf: bool, pixelCount: nat, redSum: nat, greenSum: nat, blueSum: nat)

  /** What a subtree total adds up over the leaves. */
  datatype Measure = Leaves | Pixels | Red | Green | Blue

  function Weight(n: Node, m: Measure): nat
  {
    match m
    case Leaves => 1
    case Pixels => n.pixelCount
    case Red => n.redSum
    case Green => n.greenSum
    case Blue => n.blueSum
  }

  /** What one sample adds to a measure (leaves are not counted per sample). */
  function Contribution(c: Rgb, m: Measure): nat
  {
    match m
    case Leaves => 0
    case Pixels => 1
    case Red => c.r as nat
    case Green => c.g as nat
    case Blue => c.b as nat
  }

  predicate IsPrefix(p: Path, q: Path) { |p| <= |q| && q[..|p|] == p }

  predicate StrictPrefix(p: Path, q: Path) { |p| < |q| && q[..|p|] == p }

  predicate SlotsValid(p: Path) { forall i | 0 <= i < |p| :: p[i] < 8 }

  function Parent(p: Path): Path
    requires p != []
  {
    p[..|p| - 1]
  }

  /** Sum of measure `m` over the leaves of the subtree at `p`. */
  function Total(t: map<Path, Node>, p: Path, m: Measure): nat
    decreases 9 - |p|, 1, 0, |t|
  {
    if p !in t || |p| > 8 then 0
    else if t[p].isLeaf then Weight(t[p], m)
    else Subtotal(t, p, 8, m)
  }

  /** Sum of the totals of the subtrees in slots `0 .. k-1` under `p`. */
  function Subtotal(t: map<Path, Node>, p: Path, k: nat, m: Measure): nat
    requires |p| <= 8 && k <= 8
    decreases 9 - |p|, 0, k, |t|
  {
    if k == 0 then 0 else Subtotal(t, p, k - 1, m) + Total(t, p + [k - 1], m)
  }

  /** The shape every tree built by AddColor/ReduceTree keeps: nodes at most
      `bpp` levels deep, every non-root node hanging from an inner node,
      nodes at level `bpp` always leaves, inner nodes carrying no pixels. */
  ghost predicate Shaped(t: map<Path, Node>, bpp: nat)
  {
    && bpp <= 8
    && (forall p {:trigger p in t} | p in t :: |p| <= bpp && SlotsValid(p))
    && (forall p {:trigger Parent(p)} | p in t && p != [] :: Parent(p) in t && !t[Parent(p)].isLeaf)
    && BottomLeaves(t, bpp)
    && (forall p | p in t :: Weighted(t[p]))
  }

  /** Nodes at level `bpp` are leaves. */
  ghost predicate BottomLeaves(t: map<Path, Node>, bpp: nat)
  {
    forall p {:trigger p in t} | p in t && |p| == bpp :: t[p].isLeaf
  }

  /** An inner node carries no pixels; a leaf's sums are sums of at most
      `pixelCount` byte values. */
  predicate Weighted(n: Node)
  {
    && (!n.isLeaf ==> n.pixelCount == 0 && n.redSum == 0 && n.greenSum == 0 && n.blueSum == 0)
    && n.redSum <= 255 * n.pixelCount
    && n.greenSum <= 255 * n.pixelCount
    && n.blueSum <= 255 * n.pixelCount
  }

  /** Stack `l` holds, without repetition, exactly the inner nodes of level `l`. */
  ghost predicate StacksExact(t: map<Path, Node>, st: seq<seq<Path>>)
  {
    && |st| == 9
    && (forall l, j | 0 <= l < 9 && 0 <= j < |st[l]| ::
          st[l][j] in t && |st[l][j]| == l && !t[st[l][j]].isLeaf)
    && (forall l, j, k | 0 <= l < 9 && 0 <= j < k < |st[l]| :: st[l][j] != st[l][k])
    && (forall p {:trigger p in t} | p in t && !t[p].isLeaf && |p| < 9 :: p in st[|p|])
  }

  /** The slot for `p` exists: every node above it is an inner node. */
  ghost predicate SlotReachable(t: map<Path, Node>, p: Path)
  {
    forall k | StrictPrefix(k, p) :: k in t && !t[k].isLeaf
  }

  /** Number of entries on all stacks: the measure that bounds reductions. */
  function StackSize(st: seq<seq<Path>>): nat
  {
    if st == [] then 0 else |st[0]| + StackSize(st[1..])
  }

  lemma {:induction false} StackSizeUpdate(st: seq<seq<Path>>, i: nat, x: seq<Path>)
    requires i < |st|
    ensures StackSize(st[i := x]) == StackSize(st) - |st[i]| + |x|
  {
    if i > 0 {
      assert st[i := x][1..] == st[1..][i - 1 := x];
      StackSizeUpdate(st[1..], i - 1, x);
    } else {
      assert st[i := x][1..] == st[1..];
    }
  }

  lemma StrictPrefixOfChild(k: Path, p: Path, i: nat)
    requires StrictPrefix(k, p + [i])
    ensures k == p || StrictPrefix(k, p)
  {
    if |k| < |p| {
      assert p[..|k|] == (p + [i])[..|k|];
    } else {
      assert k == (p + [i])[..|p|] == p;
    }
  }

  lemma {:induction false} AncestorsAreInner(t: map<Path, Node>, bpp: nat, q: Path)
    requires Shaped(t, bpp) && q in t
    ensures SlotReachable(t, q)
    decreases |q|
  {
    if q != [] {
      var pq := Parent(q);
      AncestorsAreInner(t, bpp, pq);
      forall k | StrictPrefix(k, q)
        ensures k in t && !t[k].isLeaf
      {
        assert q == pq + [q[|q| - 1]];
        StrictPrefixOfChild(k, pq, q[|q| - 1]);
      }
    }
  }

  /** A shaped tree is closed under prefixes: a node's ancestors are nodes. */
  lemma PrefixClosed(t: map<Path, Node>, bpp: nat, p: Path, k: Path)
    requires Shaped(t, bpp) && IsPrefix(p, k)
    ensures k in t ==> p in t
  {
    if k in t {
      AncestorsAreInner(t, bpp, k);
      if p != k {
        assert StrictPrefix(p, k);
      }
    }
  }

  /** Whatever has its parent below or at `q` is itself strictly below `q`. */
  lemma ParentPrefix(q: Path, p: Path)
    requires p != []
    ensures IsPrefix(q, Parent(p)) ==> StrictPrefix(q, p)
  {
    if IsPrefix(q, Parent(p)) {
      assert p[..|q|] == Parent(p)[..|q|];
    }
  }

  /** A prefix of `p + [i]` is `p + [i]` itself or a prefix of `p`. */
  lemma PrefixOfChild(q: Path, p: Path, i: nat)
    ensures IsPrefix(q, p + [i]) ==> q == p + [i] || IsPrefix(q, p)
  {
    if IsPrefix(q, p + [i]) && |q| <= |p| {
      assert p[..|q|] == (p + [i])[..|q|];
    }
  }

  lemma ChildPrefix(p: Path, i: nat, q: Path)
    ensures IsPrefix(p + [i], q) <==> (IsPrefix(p, q) && |q| > |p| && q[|p|] == i)
  {
    if IsPrefix(p + [i], q) {
      assert q[..|p|] == (p + [i])[..|p|] == p;
      assert q[|p|] == (p + [i])[|p|];
    }
    if IsPrefix(p, q) && |q| > |p| && q[|p|] == i {
      assert q[..|p| + 1] == q[..|p|] + [q[|p|]];
    }
  }

  /** The frame condition of Locality: `t` and `u` differ only inside the
      subtree at `q`, and `q` hangs below inner nodes of `t`. */
  ghost predicate ChangedOnlyBelow(t: map<Path, Node>, u: map<Path, Node>, q: Path)
  {
    && (forall k | !IsPrefix(q, k) :: (k in t <==> k in u) && (k in t ==> t[k] == u[k]))
    && SlotReachable(t, q) && SlotsValid(q) && |q| <= 8
  }

  /** The change a measure sees at `p` when the subtree at `q` changes. */
  function Delta(t: map<Path, Node>, u: map<Path, Node>, p: Path, q: Path, m: Measure): int
  {
    if IsPrefix(p, q) then Total(u, q, m) - Total(t, q, m) else 0
  }

  /** Changing a tree only inside the subtree at `q` changes the total at
      any node above `q` by exactly the change at `q`, and leaves every
      subtree beside `q` alone. */
  lemma {:induction false} Locality(t: map<Path, Node>, u: map<Path, Node>, p: Path, q: Path, m: Measure)
    requires ChangedOnlyBelow(t, u, q)
    requires !IsPrefix(q, p) || p == q
    ensures Total(u, p, m) == Total(t, p, m) + Delta(t, u, p, q, m)
    decreases 9 - |p|, 1, 0
  {
    if p != q {
      assert q[..|q|] == q;
      assert IsPrefix(p, q) ==> StrictPrefix(p, q);
      assert IsPrefix(p, q) ==> p in t && !t[p].isLeaf && |p| < 8;
      if p in t && |p| <= 8 && !t[p].isLeaf {
        assert p in u && u[p] == t[p];
        SubLocality(t, u, p, q, 8, m);
        if IsPrefix(p, q) {
          assert |q| > |p| && q[|p|] < 8;
        }
      }
    }
  }

  lemma {:induction false} SubLocality(t: map<Path, Node>, u: map<Path, Node>, p: Path, q: Path, k: nat, m: Measure)
    requires ChangedOnlyBelow(t, u, q)
    requires |p| <= 8 && k <= 8 && !IsPrefix(q, p)
    ensures Subtotal(u, p, k, m) == Subtotal(t, p, k, m)
              + (if IsPrefix(p, q) && |q| > |p| && q[|p|] < k then Total(u, q, m) - Total(t, q, m) else 0)
    decreases 9 - |p|, 0, k
  {
    if k > 0 {
      SubLocality(t, u, p, q, k - 1, m);
      PrefixOfChild(q, p, k - 1);
      Locality(t, u, p + [k - 1], q, m);
      ChildPrefix(p, k - 1, q);
      assert Subtotal(u, p, k, m) == Subtotal(u, p, k - 1, m) + Total(u, p + [k - 1], m);
      assert Subtotal(t, p, k, m) == Subtotal(t, p, k - 1, m) + Total(t, p + [k - 1], m);
    }
  }

  /** Children of `q` taken as leaves: the sum over slots `0 .. k-1`. */
  function ChildSum(t: map<Path, Node>, q: Path, k: nat, m: Measure): nat
    requires k <= 8
  {
    if k == 0 then 0
    else ChildSum(t, q, k - 1, m) + (if q + [k - 1] in t then Weight(t[q + [k - 1]], m) else 0)
  }

  /** With no reducible node at level 0 the tree is empty or a single leaf. */
  lemma NoReducibleMeansOneLeaf(t: map<Path, Node>, bpp: nat, st: seq<seq<Path>>)
    requires Shaped(t, bpp) && StacksExact(t, st) && st[0] == []
    ensures Total(t, [], Leaves) <= 1
  {
    var s0 := st[0];
    assert [] in t && !t[[]].isLeaf ==> [] in s0;
  }

  /** A tree that holds a pixel has a leaf. */
  lemma {:induction false} PixelsNeedLeaves(t: map<Path, Node>, p: Path)
    requires Total(t, p, Pixels) > 0
    ensures Total(t, p, Leaves) > 0
    decreases 9 - |p|, 1, 0
  {
    if p in t && |p| <= 8 && !t[p].isLeaf {
      SubPixelsNeedLeaves(t, p, 8);
    }
  }

  lemma {:induction false} SubPixelsNeedLeaves(t: map<Path, Node>, p: Path, k: nat)
    requires |p| <= 8 && k <= 8 && Subtotal(t, p, k, Pixels) > 0
    ensures Subtotal(t, p, k, Leaves) > 0
    decreases 9 - |p|, 0, k
  {
    if Total(t, p + [k - 1], Pixels) > 0 {
      PixelsNeedLeaves(t, p + [k - 1]);
    } else {
      SubPixelsNeedLeaves(t, p, k - 1);
    }
  }

  /** The per-level masks of AddColor: `mask[level] == 0x80 >> level`. */
  const LevelMask: seq<byte> := [0x80, 0x40, 0x20, 0x10, 0x08, 0x04, 0x02, 0x01]

  /** Bit `k` of a byte. */
  function Bit(v: byte, k: nat): (r: byte)
    requires k < 8
    ensures r <= 1
  {
    (v >> k) & 1
  }

  /** The child slot AddColor descends into at `level`: the bit of red,
      green and blue under the level's mask, each shifted down to bit 0 and
      placed in bits 2, 1 and 0 of the slot. */
  function ChildIndex(c: Rgb, level: nat): (i: nat)
    requires level < 8
    ensures i < 8
  {
    SlotBits(c, level);
    Slot(c, level) as nat
  }

  /** The slot as the byte it is computed in. */
  function Slot(c: Rgb, level: nat): byte
    requires level < 8
  {
    (Part(c.r, level) << 2) | (Part(c.g, level) << 1) | Part(c.b, level)
  }

  /** One channel under the level's mask, shifted down to bit 0. */
  function Part(v: byte, level: nat): byte
    requires level < 8
  {
    (v & LevelMask[level]) >> (7 - level)
  }

  /** Bit 7 - level of red, green and blue become bits 2, 1 and 0 of the slot. */
  lemma ChildIndexBits(c: Rgb, level: nat)
    requires level < 8
    ensures var k := 7 - level;
      ChildIndex(c, level) == (4 * Bit(c.r, k) + 2 * Bit(c.g, k) + Bit(c.b, k)) as nat
  {
    SlotBits(c, level);
  }

  /** The same on the byte the slot is computed in. */
  lemma SlotBits(c: Rgb, level: nat)
    requires level < 8
    ensures var k := 7 - level;
      Slot(c, level) == 4 * Bit(c.r, k) + 2 * Bit(c.g, k) + Bit(c.b, k)
  {
    var k := 7 - level;
    MaskedBit(c.r, level);
    MaskedBit(c.g, level);
    MaskedBit(c.b, level);
    PackBits(Bit(c.r, k), Bit(c.g, k), Bit(c.b, k));
  }

  /** Masking with the level's mask and shifting down leaves the bit alone. */
  lemma MaskedBit(v: byte, level: nat)
    requires level < 8
    ensures Part(v, level) == Bit(v, 7 - level)
  {
    if level < 4 {
      if level < 2 {
        if level == 0 {} else {}
      } else {
        if level == 2 {} else {}
      }
    } else {
      if level < 6 {
        if level == 4 {} else {}
      } else {
        if level == 6 {} else {}
      }
    }
  }

  /** Three bits placed at 2, 1 and 0 read as a number below eight. */
  lemma PackBits(x: byte, y: byte, z: byte)
    requires x <= 1 && y <= 1 && z <= 1
    ensures (x << 2) | (y << 1) | z == 4 * x + 2 * y + z
  {
  }

  /** The slots a sample takes on its way down `n` levels. */
  function ColorPath(c: Rgb, n: nat): (p: Path)
    requires n <= 8
    ensures |p| == n && SlotsValid(p)
  {
    seq(n, l requires 0 <= l < n => ChildIndex(c, l))
  }

  /** The deepest level in `i`, `i - 1`, ..., 1 whose stack is not empty, or
      0 when there is none (ReduceTree's search loop). */
  function ReduceLevel(st: seq<seq<Path>>, i: int): (l: int)
    requires i < |st|
    ensures l <= i && (i >= 0 ==> l >= 0)
    decreases i
  {
    if i > 0 && st[i] == [] then ReduceLevel(st, i - 1) else i
  }

  lemma {:induction false} ReduceLevelIsDeepest(st: seq<seq<Path>>, i: int)
    requires i < |st|
    ensures var l := ReduceLevel(st, i);
      && (l >= 1 ==> st[l] != [])
      && (forall j | l < j <= i :: st[j] == [])
    decreases i
  {
    if i > 0 && st[i] == [] {
      ReduceLevelIsDeepest(st, i - 1);
    }
  }

  function Top(s: seq<Path>): Path
    requires s != []
  {
    s[|s| - 1]
  }

  /** The tree after ReduceTree has folded the children of `q` into it: the
      children are gone and `q` is a leaf holding their pixel count and
      colour sums. */
  function Folded(t: map<Path, Node>, q: Path): (u: map<Path, Node>)
  {
    map k | k in t && !StrictPrefix(q, k) ::
      if k == q then Node(true, t[q].pixelCount + ChildSum(t, q, 8, Pixels), ChildSum(t, q, 8, Red),
                          ChildSum(t, q, 8, Green), ChildSum(t, q, 8, Blue))
      else t[k]
  }

  /** The node ReduceTree picks has only leaf children: an inner child
      would sit on the next, deeper stack, which the search found empty. */
  lemma ChildrenOfDeepestAreLeaves(t: map<Path, Node>, bpp: nat, st: seq<seq<Path>>, l: nat)
    requires Shaped(t, bpp) && StacksExact(t, st)
    requires l < bpp && st[l] != [] && forall j | l < j < bpp :: st[j] == []
    ensures Top(st[l]) in t && |Top(st[l])| == l && !t[Top(st[l])].isLeaf
    ensures forall k | k in t && StrictPrefix(Top(st[l]), k) ::
              |k| == l + 1 && k == Top(st[l]) + [k[l]] && t[k].isLeaf
  {
    var q := Top(st[l]);
    assert q == st[l][|st[l]| - 1];
    assert forall x {:trigger x in t} | x in t && |x| == l + 1 :: t[x].isLeaf by {
      forall x {:trigger x in t} | x in t && |x| == l + 1 && !t[x].isLeaf
        ensures x in st[l + 1]
      {
      }
    }
    forall k | k in t && StrictPrefix(q, k)
      ensures |k| == l + 1 && k == q + [k[l]] && t[k].isLeaf
    {
      var c := k[..l + 1];
      assert c == q + [k[l]];
      AncestorsAreInner(t, bpp, k);
      assert c != k ==> StrictPrefix(c, k);
    }
  }

  lemma {:induction false} InnerTotalIsChildSum(t: map<Path, Node>, q: Path, k: nat, m: Measure)
    requires |q| < 8 && k <= 8
    requires forall k | k in t && StrictPrefix(q, k) :: t[k].isLeaf
    ensures Subtotal(t, q, k, m) == ChildSum(t, q, k, m)
  {
    if k > 0 {
      InnerTotalIsChildSum(t, q, k - 1, m);
      assert StrictPrefix(q, q + [k - 1]);
    }
  }

  lemma {:induction false} ChildSumBounded(t: map<Path, Node>, q: Path, k: nat)
    requires k <= 8 && forall i | 0 <= i < k && q + [i] in t :: Weighted(t[q + [i]])
    ensures ChildSum(t, q, k, Red) <= 255 * ChildSum(t, q, k, Pixels)
    ensures ChildSum(t, q, k, Green) <= 255 * ChildSum(t, q, k, Pixels)
    ensures ChildSum(t, q, k, Blue) <= 255 * ChildSum(t, q, k, Pixels)
  {
    if k > 0 {
      ChildSumBounded(t, q, k - 1);
    }
  }

  lemma FoldKeepsShaped(t: map<Path, Node>, bpp: nat, st: seq<seq<Path>>, l: nat)
    requires Shaped(t, bpp) && StacksExact(t, st)
    requires l < bpp && st[l] != [] && forall j | l < j < bpp :: st[j] == []
    ensures Shaped(Folded(t, Top(st[l])), bpp)
  {
    var q := Top(st[l]);
    var u := Folded(t, q);
    ChildrenOfDeepestAreLeaves(t, bpp, st, l);
    forall p | p in u && p != []
      ensures Parent(p) in u && !u[Parent(p)].isLeaf
    {
      ParentPrefix(q, p);
    }
    ChildSumBounded(t, q, 8);
  }

  /** After the fold, each stack entry is still an inner node of its level. */
  lemma FoldKeepsStackEntries(t: map<Path, Node>, bpp: nat, st: seq<seq<Path>>, l: nat)
    requires Shaped(t, bpp) && StacksExact(t, st)
    requires l < bpp && st[l] != [] && forall j | l < j < bpp :: st[j] == []
    ensures var u, st' := Folded(t, Top(st[l])), st[l := st[l][..|st[l]| - 1]];
      forall l', j | 0 <= l' < 9 && 0 <= j < |st'[l']| ::
        st'[l'][j] in u && |st'[l'][j]| == l' && !u[st'[l'][j]].isLeaf
  {
    var q := Top(st[l]);
    var u := Folded(t, q);
    var st' := st[l := st[l][..|st[l]| - 1]];
    ChildrenOfDeepestAreLeaves(t, bpp, st, l);
    forall l', j | 0 <= l' < 9 && 0 <= j < |st'[l']|
      ensures st'[l'][j] in u && |st'[l'][j]| == l' && !u[st'[l'][j]].isLeaf
    {
      var x := st'[l'][j];
      assert x == st[l'][j];
      assert l' == l ==> x != q;
    }
  }

  /** After the fold, every inner node is still on its level's stack. */
  lemma FoldKeepsStackCover(t: map<Path, Node>, bpp: nat, st: seq<seq<Path>>, l: nat)
    requires Shaped(t, bpp) && StacksExact(t, st)
    requires l < bpp && st[l] != [] && forall j | l < j < bpp :: st[j] == []
    ensures var u, st' := Folded(t, Top(st[l])), st[l := st[l][..|st[l]| - 1]];
      forall p {:trigger p in u} | p in u && !u[p].isLeaf && |p| < 9 :: p in st'[|p|]
  {
    var q := Top(st[l]);
    var u := Folded(t, q);
    var st' := st[l := st[l][..|st[l]| - 1]];
    forall p {:trigger p in u} | p in u && !u[p].isLeaf && |p| < 9
      ensures p in st'[|p|]
    {
      assert p in st[|p|];
      var j :| 0 <= j < |st[|p|]| && st[|p|][j] == p;
      assert |p| == l ==> j != |st[l]| - 1 && st'[l][j] == p;
    }
  }

  lemma FoldKeepsStacks(t: map<Path, Node>, bpp: nat, st: seq<seq<Path>>, l: nat)
    requires Shaped(t, bpp) && StacksExact(t, st)
    requires l < bpp && st[l] != [] && forall j | l < j < bpp :: st[j] == []
    ensures StacksExact(Folded(t, Top(st[l])), st[l := st[l][..|st[l]| - 1]])
  {
    FoldKeepsStackEntries(t, bpp, st, l);
    FoldKeepsStackCover(t, bpp, st, l);
  }

  /** Folding the leaf children of `q` into `q` keeps every measure but
      the leaf count, which loses the children and gains `q`. */
  lemma FoldTotalAt(t: map<Path, Node>, q: Path, m: Measure)
    requires q in t && !t[q].isLeaf && t[q].pixelCount == 0 && |q| < 8
    requires SlotReachable(t, q) && SlotsValid(q)
    requires forall k | k in t && StrictPrefix(q, k) :: t[k].isLeaf
    ensures Total(Folded(t, q), [], m) + ChildSum(t, q, 8, m)
              == Total(t, [], m) + (if m == Leaves then 1 else ChildSum(t, q, 8, m))
  {
    var u := Folded(t, q);
    Locality(t, u, [], q, m);
    InnerTotalIsChildSum(t, q, 8, m);
    assert Total(u, q, m) == Weight(u[q], m);
  }

  lemma FoldTotals(t: map<Path, Node>, bpp: nat, st: seq<seq<Path>>, l: nat)
    requires Shaped(t, bpp) && StacksExact(t, st)
    requires l < bpp && st[l] != [] && forall j | l < j < bpp :: st[j] == []
    ensures Total(Folded(t, Top(st[l])), [], Leaves) + ChildSum(t, Top(st[l]), 8, Leaves)
              == Total(t, [], Leaves) + 1
    ensures forall m | m != Leaves :: Total(Folded(t, Top(st[l])), [], m) == Total(t, [], m)
  {
    var q := Top(st[l]);
    ChildrenOfDeepestAreLeaves(t, bpp, st, l);
    AncestorsAreInner(t, bpp, q);
    forall m {
      FoldTotalAt(t, q, m);
    }
  }

  /** The tree while ReduceTree's child loop runs: the children of `q` in
      slots below `j` are unlinked and their pixels moved into `q`. */
  function Partial(t: map<Path, Node>, q: Path, j: nat): map<Path, Node>
    requires q in t && j <= 8
  {
    map k | k in t && !(StrictPrefix(q, k) && k[|q|] < j) ::
      if k == q then t[q].(pixelCount := t[q].pixelCount + ChildSum(t, q, j, Pixels)) else t[k]
  }

  lemma PartialStart(t: map<Path, Node>, q: Path)
    requires q in t
    ensures Partial(t, q, 0) == t
  {
    assert forall k :: k in Partial(t, q, 0) <==> k in t;
  }

  lemma PartialStep(t: map<Path, Node>, q: Path, j: nat)
    requires q in t && j < 8
    requires forall k | k in t && StrictPrefix(q, k) :: k == q + [k[|q|]]
    ensures var c := q + [j]; var u := Partial(t, q, j);
      && (c in u <==> c in t) && (c in u ==> u[c] == t[c]) && q in u && c != q
      && Partial(t, q, j + 1)
         == if c in t then u[q := u[q].(pixelCount := u[q].pixelCount + u[c].pixelCount)] - {c} else u
  {
    var c := q + [j];
    assert StrictPrefix(q, c) && c[|q|] == j;
    var u := Partial(t, q, j);
    var v := Partial(t, q, j + 1);
    var w := if c in t then u[q := u[q].(pixelCount := u[q].pixelCount + u[c].pixelCount)] - {c} else u;
    assert forall k | k in t && StrictPrefix(q, k) && k[|q|] == j :: k == c;
    assert forall k :: k in v <==> k in w;
  }

  lemma PartialDone(t: map<Path, Node>, q: Path)
    requires q in t && forall k | k in t :: SlotsValid(k)
    ensures var u := Partial(t, q, 8);
      q in u && u[q := Node(true, u[q].pixelCount, ChildSum(t, q, 8, Red),
                            ChildSum(t, q, 8, Green), ChildSum(t, q, 8, Blue))] == Folded(t, q)
  {
    var u := Partial(t, q, 8);
    var v := u[q := Node(true, u[q].pixelCount, ChildSum(t, q, 8, Red),
                         ChildSum(t, q, 8, Green), ChildSum(t, q, 8, Blue))];
    forall k | k in t && StrictPrefix(q, k)
      ensures k[|q|] < 8
    {
    }
    assert forall k :: k in v <==> k in Folded(t, q);
  }

  /** The invariant of an octree under construction, with `lc` its leaf count. */
  ghost predicate ValidTree(t: map<Path, Node>, bpp: nat, st: seq<seq<Path>>, lc: int)
  {
    Shaped(t, bpp) && StacksExact(t, st) && lc == Total(t, [], Leaves)
  }

  /** The stacks after the top of stack `l` is popped. */
  function Pop(st: seq<seq<Path>>, l: nat): seq<seq<Path>>
    requires l < |st| && st[l] != []
  {
    st[l := st[l][..|st[l]| - 1]]
  }

  /** One ReduceTree step keeps the invariant, with the leaf count losing
      the folded children and gaining their parent. */
  lemma ReduceStep(t: map<Path, Node>, bpp: nat, st: seq<seq<Path>>, lc: int, l: nat)
    requires ValidTree(t, bpp, st, lc)
    requires l < bpp && st[l] != [] && forall j | l < j < bpp :: st[j] == []
    ensures ValidTree(Folded(t, Top(st[l])), bpp, Pop(st, l), lc - (ChildSum(t, Top(st[l]), 8, Leaves) - 1))
    ensures forall m | m != Leaves :: Total(Folded(t, Top(st[l])), [], m) == Total(t, [], m)
    ensures StackSize(Pop(st, l)) + 1 == StackSize(st)
  {
    FoldKeepsShaped(t, bpp, st, l);
    FoldKeepsStacks(t, bpp, st, l);
    FoldTotals(t, bpp, st, l);
    StackSizeUpdate(st, l, st[l][..|st[l]| - 1]);
  }

  /** What ReduceTree's child loop needs of the node it folds. */
  lemma ReduceTarget(t: map<Path, Node>, bpp: nat, st: seq<seq<Path>>, lc: int, l: nat)
    requires ValidTree(t, bpp, st, lc)
    requires l < bpp && st[l] != [] && forall j | l < j < bpp :: st[j] == []
    ensures Top(st[l]) in t && forall k | k in t :: SlotsValid(k)
    ensures forall k | k in t && StrictPrefix(Top(st[l]), k) :: k == Top(st[l]) + [k[|Top(st[l])|]]
  {
    ChildrenOfDeepestAreLeaves(t, bpp, st, l);
  }

  /** The node CreateNode makes at path `p`. */
  function NewNode(p: Path, bpp: nat): Node
  {
    Node(|p| == bpp, 0, 0, 0, 0)
  }

  /** The stacks after CreateNode: an inner node is pushed on its level. */
  function Pushed(st: seq<seq<Path>>, p: Path, bpp: nat): seq<seq<Path>>
    requires |p| < |st|
  {
    if |p| == bpp then st else st[|p| := st[|p|] + [p]]
  }

  /** A leaf after it has counted one more sample. */
  function Counted(n: Node, c: Rgb): Node
  {
    n.(pixelCount := n.pixelCount + 1, redSum := n.redSum + c.r as nat,
       greenSum := n.greenSum + c.g as nat, blueSum := n.blueSum + c.b as nat)
  }

  lemma InsertKeepsShaped(t: map<Path, Node>, bpp: nat, p: Path)
    requires Shaped(t, bpp)
    requires p !in t && |p| <= bpp && SlotsValid(p) && SlotReachable(t, p)
    ensures Shaped(t[p := NewNode(p, bpp)], bpp)
  {
    var u := t[p := NewNode(p, bpp)];
    assert p != [] ==> StrictPrefix(Parent(p), p);
    forall x | x in u && x != []
      ensures Parent(x) in u && !u[Parent(x)].isLeaf
    {
      assert x in t ==> Parent(x) in t;
    }
  }

  lemma InsertKeepsStacks(t: map<Path, Node>, bpp: nat, st: seq<seq<Path>>, p: Path)
    requires StacksExact(t, st) && bpp <= 8
    requires p !in t && |p| <= bpp
    ensures StacksExact(t[p := NewNode(p, bpp)], Pushed(st, p, bpp))
  {
  }

  lemma InsertTotals(t: map<Path, Node>, bpp: nat, p: Path)
    requires Shaped(t, bpp)
    requires p !in t && |p| <= bpp && SlotsValid(p) && SlotReachable(t, p)
    ensures forall m :: Total(t[p := NewNode(p, bpp)], [], m)
                        == Total(t, [], m) + (if m == Leaves && |p| == bpp then 1 else 0)
  {
    var u := t[p := NewNode(p, bpp)];
    forall i | 0 <= i < 8
      ensures p + [i] !in u
    {
      PrefixClosed(t, bpp, p, p + [i]);
    }
    forall m
      ensures Total(u, [], m) == Total(t, [], m) + (if m == Leaves && |p| == bpp then 1 else 0)
    {
      Locality(t, u, [], p, m);
      if |p| < bpp {
        EmptySubtotal(u, p, 8, m);
      }
    }
  }

  lemma {:induction false} EmptySubtotal(t: map<Path, Node>, p: Path, k: nat, m: Measure)
    requires |p| <= 8 && k <= 8 && forall i | 0 <= i < k :: p + [i] !in t
    ensures Subtotal(t, p, k, m) == 0
  {
    if k > 0 {
      EmptySubtotal(t, p, k - 1, m);
    }
  }

  lemma CountKeepsShape(t: map<Path, Node>, bpp: nat, st: seq<seq<Path>>, p: Path, c: Rgb)
    requires Shaped(t, bpp) && StacksExact(t, st)
    requires p in t && t[p].isLeaf
    ensures Shaped(t[p := Counted(t[p], c)], bpp)
    ensures StacksExact(t[p := Counted(t[p], c)], st)
  {
  }

  /** Counting a sample at leaf `p` adds its contribution to every total. */
  lemma CountTotalAt(t: map<Path, Node>, p: Path, c: Rgb, m: Measure)
    requires p in t && t[p].isLeaf && SlotReachable(t, p) && SlotsValid(p) && |p| <= 8
    ensures Total(t[p := Counted(t[p], c)], [], m) == Total(t, [], m) + Contribution(c, m)
  {
    var u := t[p := Counted(t[p], c)];
    Locality(t, u, [], p, m);
    assert Total(u, p, m) == Weight(u[p], m);
    assert Total(t, p, m) == Weight(t[p], m);
  }

  lemma InsertStep(t: map<Path, Node>, bpp: nat, st: seq<seq<Path>>, lc: int, p: Path)
    requires ValidTree(t, bpp, st, lc)
    requires p !in t && |p| <= bpp && SlotsValid(p) && SlotReachable(t, p)
    ensures ValidTree(t[p := NewNode(p, bpp)], bpp, Pushed(st, p, bpp), lc + if |p| == bpp then 1 else 0)
    ensures forall m | m != Leaves :: Total(t[p := NewNode(p, bpp)], [], m) == Total(t, [], m)
  {
    InsertKeepsShaped(t, bpp, p);
    InsertKeepsStacks(t, bpp, st, p);
    InsertTotals(t, bpp, p);
  }

  lemma CountStep(t: map<Path, Node>, bpp: nat, st: seq<seq<Path>>, lc: int, p: Path, c: Rgb)
    requires ValidTree(t, bpp, st, lc)
    requires p in t && t[p].isLeaf
    ensures ValidTree(t[p := Counted(t[p], c)], bpp, st, lc)
    ensures forall m | m != Leaves :: Total(t[p := Counted(t[p], c)], [], m) == Total(t, [], m) + Contribution(c, m)
  {
    CountKeepsShape(t, bpp, st, p, c);
    AncestorsAreInner(t, bpp, p);
    forall m {
      CountTotalAt(t, p, c, m);
    }
  }

  /** The tree AddColor makes from slot `p`: create the node if missing;
      at a leaf count the sample, otherwise go on to the child slot the
      sample's bits select. */
  function Added(t: map<Path, Node>, bpp: nat, p: Path, c: Rgb): map<Path, Node>
    requires |p| <= bpp <= 8
    decreases bpp - |p|
  {
    var t1 := if p in t then t else t[p := NewNode(p, bpp)];
    if t1[p].isLeaf || |p| == bpp then t1[p := Counted(t1[p], c)]
    else Added(t1, bpp, p + [ChildIndex(c, |p|)], c)
  }

  /** The stacks after AddColor from slot `p`: every inner node it creates is pushed. */
  function AddedStacks(t: map<Path, Node>, st: seq<seq<Path>>, bpp: nat, p: Path, c: Rgb): seq<seq<Path>>
    requires |p| <= bpp <= 8 && |st| == 9
    decreases bpp - |p|
  {
    var t1 := if p in t then t else t[p := NewNode(p, bpp)];
    var st1 := if p in t then st else Pushed(st, p, bpp);
    if t1[p].isLeaf || |p| == bpp then st1
    else AddedStacks(t1, st1, bpp, p + [ChildIndex(c, |p|)], c)
  }

  /** The leaf in which AddColor from slot `p` counts the sample. */
  function Landing(t: map<Path, Node>, bpp: nat, p: Path, c: Rgb): Path
    requires |p| <= bpp <= 8
    decreases bpp - |p|
  {
    var t1 := if p in t then t else t[p := NewNode(p, bpp)];
    if t1[p].isLeaf || |p| == bpp then p
    else Landing(t1, bpp, p + [ChildIndex(c, |p|)], c)
  }

  lemma SlotOfChildReachable(t: map<Path, Node>, p: Path, i: nat)
    requires SlotReachable(t, p) && p in t && !t[p].isLeaf
    ensures SlotReachable(t, p + [i])
  {
    forall k | StrictPrefix(k, p + [i])
      ensures k in t && !t[k].isLeaf
    {
      StrictPrefixOfChild(k, p, i);
    }
  }

  /** The first step of AddColor at slot `p` (creating the node if it is
      missing) keeps the invariant. */
  lemma SlotStep(t: map<Path, Node>, bpp: nat, st: seq<seq<Path>>, lc: int, p: Path)
    requires ValidTree(t, bpp, st, lc)
    requires |p| <= bpp && SlotsValid(p) && SlotReachable(t, p)
    ensures ValidTree(if p in t then t else t[p := NewNode(p, bpp)], bpp,
                      if p in t then st else Pushed(st, p, bpp),
                      if p in t || |p| < bpp then lc else lc + 1)
  {
    if p !in t {
      InsertStep(t, bpp, st, lc, p);
    }
  }

  /** AddColor's last step: the sample is counted in the leaf at `p`. */
  lemma AddedAtLeaf(t: map<Path, Node>, bpp: nat, st: seq<seq<Path>>, lc: int, p: Path, c: Rgb)
    requires |p| <= bpp <= 8 && |st| == 9
    requires var t1 := if p in t then t else t[p := NewNode(p, bpp)];
      && (t1[p].isLeaf || |p| == bpp)
      && ValidTree(t1, bpp, if p in t then st else Pushed(st, p, bpp), if p in t || |p| < bpp then lc else lc + 1)
    ensures ValidTree(Added(t, bpp, p, c), bpp, AddedStacks(t, st, bpp, p, c),
                      lc + if Landing(t, bpp, p, c) in t then 0 else 1)
  {
    var t1 := if p in t then t else t[p := NewNode(p, bpp)];
    var st1 := if p in t then st else Pushed(st, p, bpp);
    var lc1 := if p in t || |p| < bpp then lc else lc + 1;
    assert t1[p].isLeaf;
    CountStep(t1, bpp, st1, lc1, p, c);
  }

  /** Below an inner node AddColor goes on from the child slot. */
  lemma AddedAtInner(t: map<Path, Node>, bpp: nat, st: seq<seq<Path>>, lc: int, p: Path, c: Rgb)
    requires |p| < bpp <= 8 && |st| == 9
    requires var t1 := if p in t then t else t[p := NewNode(p, bpp)]; !t1[p].isLeaf
    ensures var t1 := if p in t then t else t[p := NewNode(p, bpp)];
      var st1 := if p in t then st else Pushed(st, p, bpp);
      var q := p + [ChildIndex(c, |p|)];
      && Added(t, bpp, p, c) == Added(t1, bpp, q, c)
      && AddedStacks(t, st, bpp, p, c) == AddedStacks(t1, st1, bpp, q, c)
      && lc + (if Landing(t, bpp, p, c) in t then 0 else 1) == lc + (if Landing(t1, bpp, q, c) in t1 then 0 else 1)
  {
    var t1 := if p in t then t else t[p := NewNode(p, bpp)];
    var q := p + [ChildIndex(c, |p|)];
    LandingBelow(t1, bpp, q, c);
    assert Landing(t, bpp, p, c) == Landing(t1, bpp, q, c) != p;
  }

  /** AddColor keeps the octree invariant and counts one more leaf exactly
      when the sample lands in a new one. */
  lemma {:induction false} AddedKeepsValid(t: map<Path, Node>, bpp: nat, st: seq<seq<Path>>, lc: int, p: Path, c: Rgb)
    requires ValidTree(t, bpp, st, lc)
    requires |p| <= bpp && SlotsValid(p) && SlotReachable(t, p)
    ensures ValidTree(Added(t, bpp, p, c), bpp, AddedStacks(t, st, bpp, p, c),
                      lc + if Landing(t, bpp, p, c) in t then 0 else 1)
    decreases bpp - |p|
  {
    var t1 := if p in t then t else t[p := NewNode(p, bpp)];
    var st1 := if p in t then st else Pushed(st, p, bpp);
    var lc1 := if p in t || |p| < bpp then lc else lc + 1;
    SlotStep(t, bpp, st, lc, p);
    if t1[p].isLeaf || |p| == bpp {
      AddedAtLeaf(t, bpp, st, lc, p, c);
    } else {
      var q := p + [ChildIndex(c, |p|)];
      SlotOfChildReachable(t1, p, ChildIndex(c, |p|));
      AddedKeepsValid(t1, bpp, st1, lc1, q, c);
      AddedAtInner(t, bpp, st, lc, p, c);
    }
  }

  /** AddColor adds the sample's pixel and channels to the tree's totals. */
  lemma {:induction false} AddedTotals(t: map<Path, Node>, bpp: nat, p: Path, c: Rgb, m: Measure)
    requires Shaped(t, bpp)
    requires |p| <= bpp && SlotsValid(p) && SlotReachable(t, p) && m != Leaves
    ensures Total(Added(t, bpp, p, c), [], m) == Total(t, [], m) + Contribution(c, m)
    decreases bpp - |p|
  {
    var t1 := if p in t then t else t[p := NewNode(p, bpp)];
    if p !in t {
      InsertKeepsShaped(t, bpp, p);
      InsertTotals(t, bpp, p);
    }
    assert Total(t1, [], m) == Total(t, [], m);
    assert SlotReachable(t1, p);
    if t1[p].isLeaf || |p| == bpp {
      assert Added(t, bpp, p, c) == t1[p := Counted(t1[p], c)];
      CountTotalAt(t1, p, c, m);
    } else {
      var q := p + [ChildIndex(c, |p|)];
      assert Added(t, bpp, p, c) == Added(t1, bpp, q, c);
      SlotOfChildReachable(t1, p, ChildIndex(c, |p|));
      AddedTotals(t1, bpp, q, c, m);
    }
  }

  lemma {:induction false} LandingBelow(t: map<Path, Node>, bpp: nat, p: Path, c: Rgb)
    requires |p| <= bpp <= 8
    ensures IsPrefix(p, Landing(t, bpp, p, c)) && |Landing(t, bpp, p, c)| <= bpp
    decreases bpp - |p|
  {
    var t1 := if p in t then t else t[p := NewNode(p, bpp)];
    if !(t1[p].isLeaf || |p| == bpp) {
      var q := p + [ChildIndex(c, |p|)];
      LandingBelow(t1, bpp, q, c);
      assert IsPrefix(p, q);
    }
  }

  /** The sample lands in a leaf on its own colour path. */
  lemma {:induction false} LandingOnColorPath(t: map<Path, Node>, bpp: nat, p: Path, c: Rgb)
    requires |p| <= bpp <= 8 && p == ColorPath(c, |p|)
    ensures |Landing(t, bpp, p, c)| <= bpp
    ensures Landing(t, bpp, p, c) == ColorPath(c, |Landing(t, bpp, p, c)|)
    decreases bpp - |p|
  {
    LandingBelow(t, bpp, p, c);
    var t1 := if p in t then t else t[p := NewNode(p, bpp)];
    if !(t1[p].isLeaf || |p| == bpp) {
      var q := p + [ChildIndex(c, |p|)];
      assert q == ColorPath(c, |p| + 1);
      LandingOnColorPath(t1, bpp, q, c);
    }
  }

  /** The landing leaf is the only existing node whose record AddColor
      changes: it counts the sample on top of what it held before. */
  lemma {:induction false} AddedChangesOnlyLanding(t: map<Path, Node>, bpp: nat, p: Path, c: Rgb)
    requires |p| <= bpp <= 8
    ensures var leaf := Landing(t, bpp, p, c); var u := Added(t, bpp, p, c);
      && leaf in u && u[leaf] == Counted(if leaf in t then t[leaf] else NewNode(leaf, bpp), c)
      && forall k | k in t && k != leaf :: k in u && u[k] == t[k]
    decreases bpp - |p|
  {
    var t1 := if p in t then t else t[p := NewNode(p, bpp)];
    if !(t1[p].isLeaf || |p| == bpp) {
      var q := p + [ChildIndex(c, |p|)];
      AddedChangesOnlyLanding(t1, bpp, q, c);
      LandingBelow(t1, bpp, q, c);
      assert IsPrefix(q, Landing(t, bpp, p, c));
    }
  }

  class Octree {
    /** nColorBits: the depth at which nodes are created as leaves. */
    const bitsPerPixel: nat
    /** The tree; empty when the source's `tree` is null. */
    var nodes: map<Path, Node>
    /** reducibleNodes[level], top of each stack last. */
    var reducible: seq<seq<Path>>
    /** nLeafCount. */
    var leafCount: int

    ghost predicate Valid()
      reads this
    {
      ValidTree(nodes, bitsPerPixel, reducible, leafCount)
    }

    constructor (bpp: nat)
      requires bpp <= 8
      ensures Valid()
      ensures bitsPerPixel == bpp && nodes == map[] && leafCount == 0
      ensures reducible == seq(9, _ => [])
    {
      bitsPerPixel := bpp;
      nodes := map[];
      reducible := seq(9, _ => []);
      leafCount := 0;
    }

    /** CreateNode: a node is a leaf exactly at level `bitsPerPixel`; a new
        leaf is counted, a new inner node is pushed on its level's stack. */
    method CreateNode(p: Path)
      requires p !in nodes && |p| <= bitsPerPixel <= 8 && |reducible| == 9
      modifies this
      ensures nodes == old(nodes)[p := NewNode(p, bitsPerPixel)]
      ensures leafCount == old(leafCount) + (if |p| == bitsPerPixel then 1 else 0)
      ensures reducible == Pushed(old(reducible), p, bitsPerPixel)
    {
      var isLeaf := |p| == bitsPerPixel;
      nodes := nodes[p := Node(isLeaf, 0, 0, 0, 0)];
      if isLeaf {
        leafCount := leafCount + 1;
      } else {
        reducible := reducible[|p| := reducible[|p|] + [p]];
      }
    }

    /** AddColor: walk the sample's path from slot `p`, creating missing
        nodes, until a leaf is reached; that leaf counts the pixel and adds
        the sample to its sums. */
    method AddColor(p: Path, c: Rgb)
      requires |p| <= bitsPerPixel <= 8 && |reducible| == 9 && BottomLeaves(nodes, bitsPerPixel)
      modifies this
      decreases bitsPerPixel - |p|
      ensures nodes == Added(old(nodes), bitsPerPixel, p, c)
      ensures reducible == AddedStacks(old(nodes), old(reducible), bitsPerPixel, p, c)
      ensures leafCount == old(leafCount) + if Landing(old(nodes), bitsPerPixel, p, c) in old(nodes) then 0 else 1
    {
      ghost var t := nodes;
      if p !in nodes {
        CreateNode(p);
      }
      ghost var t1 := nodes;
      var n := nodes[p];
      if n.isLeaf {
        nodes := nodes[p := Counted(n, c)];
      } else {
        var idx := ChildIndex(c, |p|);
        LandingBelow(t1, bitsPerPixel, p + [idx], c);
        assert IsPrefix(p + [idx], Landing(t1, bitsPerPixel, p + [idx], c));
        AddColor(p + [idx], c);
      }
    }

    /** ReduceTree: pop the newest inner node of the deepest level that has
        one and fold its children (all leaves) into it. Returns false where
        the source faults: no level to search (bitsPerPixel = 0 indexes
        reducibleNodes[-1]) or an empty stack at level 0 (null node). */
    method ReduceTree() returns (ok: bool)
      requires Valid()
      modifies this
      ensures ok <==> bitsPerPixel >= 1 && old(reducible)[ReduceLevel(old(reducible), bitsPerPixel - 1)] != []
      ensures !ok ==> nodes == old(nodes) && reducible == old(reducible) && leafCount == old(leafCount)
      ensures ok ==> var l := ReduceLevel(old(reducible), bitsPerPixel - 1);
                     var q := Top(old(reducible)[l]);
                     && reducible == Pop(old(reducible), l)
                     && nodes == Folded(old(nodes), q)
                     && leafCount + ChildSum(old(nodes), q, 8, Leaves) == old(leafCount) + 1
    {
      if bitsPerPixel == 0 {
        return false;
      }
      var i: int := bitsPerPixel - 1;
      while i > 0 && reducible[i] == []
        invariant 0 <= i <= bitsPerPixel - 1
        invariant ReduceLevel(reducible, i) == ReduceLevel(reducible, bitsPerPixel - 1)
      {
        i := i - 1;
      }
      if reducible[i] == [] {
        return false;
      }
      ok := true;
      ReduceLevelIsDeepest(reducible, bitsPerPixel - 1);
      ReduceTarget(nodes, bitsPerPixel, reducible, leafCount, i);
      ghost var t, st, lc := nodes, reducible, leafCount;
      var q := Top(reducible[i]);
      reducible := Pop(reducible, i);
      var children := FoldChildren(q);
      leafCount := leafCount - (children - 1);
    }

    /** The child loop of ReduceTree: add up the sums of the children of
        `q`, move their pixel counts into `q`, unlink them, count them, and
        make `q` a leaf holding the sums. */
    method FoldChildren(q: Path) returns (children: int)
      requires q in nodes && forall k | k in nodes :: SlotsValid(k)
      requires forall k | k in nodes && StrictPrefix(q, k) :: k == q + [k[|q|]]
      modifies this
      ensures nodes == Folded(old(nodes), q)
      ensures children == ChildSum(old(nodes), q, 8, Leaves)
      ensures reducible == old(reducible) && leafCount == old(leafCount)
    {
      ghost var t := nodes;
      PartialStart(t, q);
      var red: nat, green: nat, blue: nat := 0, 0, 0;
      children := 0;
      for j := 0 to 8
        invariant nodes == Partial(t, q, j)
        invariant red == ChildSum(t, q, j, Red) && green == ChildSum(t, q, j, Green)
        invariant blue == ChildSum(t, q, j, Blue) && children == ChildSum(t, q, j, Leaves)
        invariant reducible == old(reducible) && leafCount == old(leafCount)
      {
        var c := q + [j];
        PartialStep(t, q, j);
        if c in nodes {
          red := red + nodes[c].redSum;
          green := green + nodes[c].greenSum;
          blue := blue + nodes[c].blueSum;
          nodes := nodes[q := nodes[q].(pixelCount := nodes[q].pixelCount + nodes[c].pixelCount)];
          nodes := nodes - {c};
          children := children + 1;
        }
      }
      PartialDone(t, q);
      nodes := nodes[q := Node(true, nodes[q].pixelCount, red, green, blue)];
    }
  }

  /** The root is absent or an inner node. */
  ghost predicate RootInner(t: map<Path, Node>)
  {
    [] in t ==> !t[[]].isLeaf
  }

  /** Leaves of distinct slots under one node: at most one per slot. */
  lemma {:induction false} ChildLeavesAtMost(t: map<Path, Node>, q: Path, k: nat)
    requires k <= 8
    ensures ChildSum(t, q, k, Leaves) <= k
  {
    if k > 0 {
      ChildLeavesAtMost(t, q, k - 1);
    }
  }

  /** Folding the root needs all its children to be leaves, so the tree
      has at most eight leaves then. */
  lemma RootFoldNeedsFewLeaves(t: map<Path, Node>, bpp: nat, st: seq<seq<Path>>, lc: int)
    requires ValidTree(t, bpp, st, lc)
    requires 0 < bpp && st[0] != [] && forall j | 0 < j < bpp :: st[j] == []
    ensures lc <= 8
  {
    ChildrenOfDeepestAreLeaves(t, bpp, st, 0);
    var q := Top(st[0]);
    assert q == [];
    InnerTotalIsChildSum(t, q, 8, Leaves);
    ChildLeavesAtMost(t, q, 8);
  }

  /** A reduction made while there are more than `maxColors >= 8` leaves
      does not fold the root. */
  lemma ReduceKeepsRootInner(t: map<Path, Node>, bpp: nat, st: seq<seq<Path>>, lc: int, maxColors: int)
    requires ValidTree(t, bpp, st, lc) && RootInner(t)
    requires bpp >= 1 && st[ReduceLevel(st, bpp - 1)] != [] && lc > maxColors >= 8
    ensures RootInner(Folded(t, Top(st[ReduceLevel(st, bpp - 1)])))
  {
    var l := ReduceLevel(st, bpp - 1);
    ReduceLevelIsDeepest(st, bpp - 1);
    if l == 0 {
      RootFoldNeedsFewLeaves(t, bpp, st, lc);
      assert false;
    }
    var q := Top(st[l]);
    assert q == st[l][|st[l]| - 1] && |q| == l;
    assert !StrictPrefix(q, []);
  }

  /** One round of the reduction loop: the fold of the deepest reducible
      node keeps the invariant and the totals, shrinks the stacks, and
      keeps an inner root while there are more than `maxColors >= 8`
      leaves. */
  lemma ReduceRound(t: map<Path, Node>, bpp: nat, st: seq<seq<Path>>, lc: int, maxColors: int,
                    t': map<Path, Node>, st': seq<seq<Path>>, lc': int)
    requires ValidTree(t, bpp, st, lc) && lc > maxColors
    requires bpp >= 1 && st[ReduceLevel(st, bpp - 1)] != []
    requires var l := ReduceLevel(st, bpp - 1);
      var q := Top(st[l]);
      && st' == Pop(st, l) && t' == Folded(t, q) && lc' + ChildSum(t, q, 8, Leaves) == lc + 1
    ensures ValidTree(t', bpp, st', lc')
    ensures forall m | m != Leaves :: Total(t', [], m) == Total(t, [], m)
    ensures StackSize(st') < StackSize(st)
    ensures RootInner(t) && maxColors >= 8 ==> RootInner(t')
  {
    var l := ReduceLevel(st, bpp - 1);
    ReduceLevelIsDeepest(st, bpp - 1);
    ReduceStep(t, bpp, st, lc, l);
    if RootInner(t) && maxColors >= 8 {
      ReduceKeepsRootInner(t, bpp, st, lc, maxColors);
    }
  }

  /** AddColor from slot `p` leaves every node above `p` as it was. */
  lemma {:induction false} AddedKeepsAbove(t: map<Path, Node>, bpp: nat, p: Path, c: Rgb, k: Path)
    requires |p| <= bpp <= 8 && k in t && |k| < |p|
    ensures k in Added(t, bpp, p, c) && Added(t, bpp, p, c)[k] == t[k]
    decreases bpp - |p|
  {
    var t1 := if p in t then t else t[p := NewNode(p, bpp)];
    if !(t1[p].isLeaf || |p| == bpp) {
      AddedKeepsAbove(t1, bpp, p + [ChildIndex(c, |p|)], c, k);
    }
  }

  /** AddColor from the root keeps an inner root, and makes one when the
      tree is empty, whenever leaves sit below level 0. */
  lemma AddedKeepsRootInner(t: map<Path, Node>, bpp: nat, c: Rgb)
    requires 1 <= bpp <= 8 && RootInner(t)
    ensures RootInner(Added(t, bpp, [], c))
  {
    var t1 := if [] in t then t else t[[] := NewNode([], bpp)];
    assert !t1[[]].isLeaf;
    assert Added(t, bpp, [], c) == Added(t1, bpp, [] + [ChildIndex(c, 0)], c);
    AddedKeepsAbove(t1, bpp, [] + [ChildIndex(c, 0)], c, []);
  }

  /** With more than one leaf ReduceTree's search finds a reducible node. */
  lemma ReduceCanProceed(t: map<Path, Node>, bpp: nat, st: seq<seq<Path>>, lc: int)
    requires ValidTree(t, bpp, st, lc)
    ensures lc >= 2 ==> bpp >= 1 && st[ReduceLevel(st, bpp - 1)] != []
  {
    if bpp == 0 {
      assert [] in t ==> t[[]].isLeaf;
    } else {
      ReduceLevelIsDeepest(st, bpp - 1);
      var l := ReduceLevel(st, bpp - 1);
      assert st[l] == [] ==> st[0] == [];
      if st[0] == [] {
        NoReducibleMeansOneLeaf(t, bpp, st);
      }
    }
  }

  // ---------------------------------------------------------------------
  // CreatePalette: sampling the DIB

  /** GetRightShiftCount and GetLeftShiftCount are stubs returning -1 and 8. */
  const RightShiftStub: int := -1
  const LeftShiftStub: int := 8

  /** C# uses the low five bits of a shift count of an int or uint. */
  function ShiftCount(n: int): bv5
  {
    (n % 32) as bv5
  }

  /** A channel of a 16-bit pixel: masked, shifted right by the right-shift
      stub, left by the left-shift stub, truncated to a byte. */
  function Channel16(w: bv32, mask: bv32): byte
  {
    ((((w & mask) >> ShiftCount(RightShiftStub)) << ShiftCount(LeftShiftStub)) & 0xFF) as byte
  }

  /** A channel of a 32-bit pixel: masked, shifted right by the stub, truncated. */
  function Channel32(d: bv32, mask: bv32): byte
  {
    (((d & mask) >> ShiftCount(RightShiftStub)) & 0xFF) as byte
  }

  /** The stubs' counts as C# applies them: -1 shifts by 31. */
  lemma ShiftStubCounts()
    ensures ShiftCount(RightShiftStub) == 31 && ShiftCount(LeftShiftStub) == 8
  {
  }

  /** The shift stubs turn every channel of a 16-bit pixel into zero: its
      masks leave bit 31 clear. */
  lemma Channel16IsZero(w: bv32, mask: bv32)
    requires mask < 0x8000_0000
    ensures Channel16(w, mask) == 0
  {
    ShiftStubCounts();
  }

  /** The same holds for 32-bit pixels under masks that leave bit 31 clear. */
  lemma Channel32IsZero(d: bv32, mask: bv32)
    requires mask < 0x8000_0000
    ensures Channel32(d, mask) == 0
  {
    ShiftStubCounts();
  }

  /** The bit depths CreatePalette scans; any other is rejected. */
  predicate SampledDepth(f: PixelFormat)
  {
    BitsOf(f) == 16 || BitsOf(f) == 24 || BitsOf(f) == 32
  }

  /** A pixel of `n` bytes in row `y`, column `x` lies inside the scan. */
  lemma PixelInScan(bmp: Bitmap, y: nat, x: nat, n: nat)
    requires WellFormed(bmp) && n >= 1 && BitsOf(bmp.format) == 8 * n && y < bmp.height && x < bmp.width
    ensures RowBase(bmp.stride, y) + n * x + n <= |bmp.scan|
  {
    StrideHoldsBytes(bmp.width, n);
    PixelFitsRow(n, x, bmp.width, bmp.stride);
    RowBounds(bmp.stride, bmp.height, y, n * x + n - 1);
  }

  /** A row of `width` pixels of `n` whole bytes fits its stride. */
  lemma StrideHoldsBytes(width: nat, n: nat)
    ensures n * width <= Stride(width, 8 * n)
  {
    StrideIsLeastDwordRow(width, 8 * n);
    assert width * (8 * n) == 8 * (n * width);
  }

  /** The bytes of pixel `x` end inside a row that holds `width` of them. */
  lemma PixelFitsRow(n: nat, x: nat, width: nat, stride: nat)
    requires x < width && n * width <= stride
    ensures n * x + n <= stride
  {
    MulMono(n, x + 1, width);
    assert n * (x + 1) == n * x + n;
  }

  /** A 16-bit pixel as the 16-bit case decodes it (masks 0x7C00, 0x03E0, 0x001F). */
  function Sample16(w: bv32): Rgb
  {
    Rgb(Channel16(w, 0x7C00), Channel16(w, 0x03E0), Channel16(w, 0x001F))
  }

  /** A 32-bit pixel as the 32-bit case decodes it (masks 0xFF0000, 0xFF00, 0xFF). */
  function Sample32(d: bv32): Rgb
  {
    Rgb(Channel32(d, 0x00FF_0000), Channel32(d, 0x0000_FF00), Channel32(d, 0x0000_00FF))
  }

  /** The sample the scan loop feeds to AddColor for row `y`, column `x`:
      blue, green, red bytes for 24 bits; little-endian words run through
      the shift stubs for 16 and 32 bits, which makes every such sample
      black: only 24-bit images are sampled with their colours. */
  function SampleAt(bmp: Bitmap, y: nat, x: nat): (c: Rgb)
    requires WellFormed(bmp) && SampledDepth(bmp.format) && y < bmp.height && x < bmp.width
    ensures BitsOf(bmp.format) != 24 ==> c == Rgb(0, 0, 0)
  {
    var base := RowBase(bmp.stride, y);
    if BitsOf(bmp.format) == 16 then
      PixelInScan(bmp, y, x, 2);
      var v := ReadU16Le(bmp.scan, base + 2 * x) as bv32;
      WideAndNarrowPixelsAreBlack(v);
      Sample16(v)
    else if BitsOf(bmp.format) == 24 then
      PixelInScan(bmp, y, x, 3);
      Rgb(bmp.scan[base + 3 * x + 2], bmp.scan[base + 3 * x + 1], bmp.scan[base + 3 * x])
    else
      PixelInScan(bmp, y, x, 4);
      var v := ReadU32Le(bmp.scan, base + 4 * x) as bv32;
      WideAndNarrowPixelsAreBlack(v);
      Sample32(v)
  }

  /** Whatever the pixel, the 16- and 32-bit decoders give black. */
  lemma WideAndNarrowPixelsAreBlack(v: bv32)
    ensures Sample16(v) == Rgb(0, 0, 0) && Sample32(v) == Rgb(0, 0, 0)
  {
    Channel16IsZero(v, 0x7C00);
    Channel16IsZero(v, 0x03E0);
    Channel16IsZero(v, 0x001F);
    Channel32IsZero(v, 0x00FF_0000);
    Channel32IsZero(v, 0x0000_FF00);
    Channel32IsZero(v, 0x0000_00FF);
  }

  /** The samples of row `y`, left to right. */
  function RowSamples(bmp: Bitmap, y: nat): (s: seq<Rgb>)
    requires WellFormed(bmp) && SampledDepth(bmp.format) && y < bmp.height
    ensures |s| == bmp.width
  {
    seq(bmp.width, x requires 0 <= x < bmp.width => SampleAt(bmp, y, x))
  }

  /** The samples of rows `0 .. n-1`, in scan order. */
  function Samples(bmp: Bitmap, n: nat): (s: seq<Rgb>)
    requires WellFormed(bmp) && SampledDepth(bmp.format) && n <= bmp.height
    ensures |s| == n * bmp.width
  {
    if n == 0 then [] else Samples(bmp, n - 1) + RowSamples(bmp, n - 1)
  }

  /** A measure added up over a run of samples. */
  function SumOf(s: seq<Rgb>, m: Measure): nat
  {
    if s == [] then 0 else SumOf(s[..|s| - 1], m) + Contribution(s[|s| - 1], m)
  }

  lemma SumOfSnoc(s: seq<Rgb>, c: Rgb, m: Measure)
    ensures SumOf(s + [c], m) == SumOf(s, m) + Contribution(c, m)
  {
    assert (s + [c])[..|s|] == s;
  }

  /** Every sample counts one pixel and at most 255 per channel. */
  lemma {:induction false} SumOfBounds(s: seq<Rgb>, m: Measure)
    requires m != Leaves
    ensures m == Pixels ==> SumOf(s, m) == |s|
    ensures SumOf(s, m) <= 255 * |s|
  {
    if s != [] {
      SumOfBounds(s[..|s| - 1], m);
    }
  }

  // ---------------------------------------------------------------------
  // CreatePalette: the palette

  /** The `(byte)` cast of the quotient `sum / count`. */
  function Mean(sum: nat, count: nat): byte
    requires count > 0
  {
    ((sum / count) % 256) as byte
  }

  /** A mean of samples fits a byte, so the cast keeps the quotient. */
  lemma MeanIsQuotient(sum: nat, count: nat)
    requires count > 0 && sum <= 255 * count
    ensures Mean(sum, count) as nat == sum / count <= 255
  {
    var q := sum / count;
    assert count * q <= sum;
    MulMono(count, 256, q);
    assert q <= 255;
    ByteOfNat(q);
  }

  lemma MulMono(a: nat, b: nat, c: nat)
    ensures b <= c ==> a * b <= a * c
  {
  }

  /** The colour GetPaletteColors gives a leaf that holds the samples `s`,
      opaque: each channel is the quotient of the channel's sum, wrapped to
      a `uint`, by the number of samples. */
  function MeanColor(s: seq<Rgb>): Color
    requires s != []
  {
    Color(255, Mean(UInt32(SumOf(s, Red)), |s|), Mean(UInt32(SumOf(s, Green)), |s|),
          Mean(UInt32(SumOf(s, Blue)), |s|))
  }

  datatype Emitted = Emitted(entries: seq<Color>, index: nat)

  /** The colour a leaf stands for, opaque. The node keeps its sums exact;
      the source's `uint` fields hold them modulo 2^32, which every update
      (an addition) preserves, so the division sees the wrapped sums. */
  function LeafColor(n: Node): Color
    requires n.pixelCount > 0
  {
    Color(255, Mean(UInt32(n.redSum), n.pixelCount), Mean(UInt32(n.greenSum), n.pixelCount),
          Mean(UInt32(n.blueSum), n.pixelCount))
  }

  /** GetPaletteColors: only the root is looked at; a leaf root writes its
      colour at entry 0 and moves the index to 1, an inner root writes
      nothing. None where the division by a zero pixel count faults. */
  function GetPaletteColors(root: Node, entries: seq<Color>): (r: Option<Emitted>)
    requires |entries| >= 1
    ensures r.None? <==> root.isLeaf && root.pixelCount == 0
    ensures r.Some? ==> |r.value.entries| == |entries| && r.value.index == (if root.isLeaf then 1 else 0)
    ensures r.Some? ==> r.value.entries[1..] == entries[1..]
    ensures r.Some? && !root.isLeaf ==> r.value.entries == entries
    ensures r.Some? && root.isLeaf ==> r.value.entries[0] == LeafColor(root)
  {
    if !root.isLeaf then Some(Emitted(entries, 0))
    else if root.pixelCount == 0 then None
    else Some(Emitted(entries[0 := LeafColor(root)], 1))
  }

  /** The loop that fills entries `from ..` with transparent black. */
  method FillTransparent(entries: seq<Color>, from: nat) returns (r: seq<Color>)
    ensures |r| == |entries|
    ensures forall i | 0 <= i < |r| :: r[i] == if i < from then entries[i] else TransparentBlack
  {
    r := entries;
    var i := from;
    while i < |r|
      invariant |r| == |entries|
      invariant forall k | 0 <= k < |r| ::
        r[k] == if k < from || k >= i then entries[k] else TransparentBlack
    {
      r := r[i := TransparentBlack];
      i := i + 1;
    }
  }

  /** The tail of CreatePalette once the tree is built: ask the root for its
      colours, then clear every entry after the last one written. */
  method EmitPalette(root: Node, stock: seq<Color>) returns (r: Option<seq<Color>>)
    requires |stock| >= 2
    ensures r.None? <==> root.isLeaf && root.pixelCount == 0
    ensures r.Some? ==> |r.value| == |stock|
    ensures r.Some? && root.isLeaf ==>
      && r.value[0] == LeafColor(root) && r.value[1] == stock[1]
      && forall i | 2 <= i < |r.value| :: r.value[i] == TransparentBlack
    ensures r.Some? && !root.isLeaf ==>
      && r.value[0] == stock[0]
      && forall i | 1 <= i < |r.value| :: r.value[i] == TransparentBlack
  {
    var emitted := GetPaletteColors(root, stock);
    if emitted.None? {
      return None;
    }
    assert emitted.value.entries[1] == emitted.value.entries[1..][0] == stock[1];
    var entries := FillTransparent(emitted.value.entries, emitted.value.index + 1);
    r := Some(entries);
  }

  datatype Fault = MaxColorsOutOfRange | Crash

  /** What CreatePalette hands back: a palette, null, or an exception
      (the explicit one for `maxColors`, or a runtime fault). */
  datatype PaletteResult = Palette(entries: seq<Color>) | NoPalette | Thrown(fault: Fault)

  /** The block that follows each sample: add it, then reduce while there
      are more leaves than `maxColors`. False where ReduceTree faults. */
  method AddSample(oct: Octree, c: Rgb, maxColors: int) returns (ok: bool)
    requires oct.Valid()
    modifies oct
    ensures oct.Valid()
    ensures ok <==> maxColors >= 1
    ensures ok ==> oct.leafCount <= maxColors
    ensures forall m | m != Leaves :: Total(oct.nodes, [], m) == old(Total(oct.nodes, [], m)) + Contribution(c, m)
    ensures oct.bitsPerPixel >= 1 && maxColors >= 8 && old(RootInner(oct.nodes)) ==> RootInner(oct.nodes)
  {
    ghost var t, st, lc := oct.nodes, oct.reducible, oct.leafCount;
    oct.AddColor([], c);
    AddedKeepsValid(t, oct.bitsPerPixel, st, lc, [], c);
    if oct.bitsPerPixel >= 1 && RootInner(t) {
      AddedKeepsRootInner(t, oct.bitsPerPixel, c);
    }
    forall m | m != Leaves
      ensures Total(oct.nodes, [], m) == Total(t, [], m) + Contribution(c, m)
    {
      AddedTotals(t, oct.bitsPerPixel, [], c, m);
    }
    ok := ReduceWhileOver(oct, maxColors);
  }

  /** The reduction loop of that block: ReduceTree while the leaf count
      exceeds `maxColors`. False where ReduceTree faults, which happens
      exactly when `maxColors` is below one. */
  method ReduceWhileOver(oct: Octree, maxColors: int) returns (ok: bool)
    requires oct.Valid() && Total(oct.nodes, [], Pixels) > 0
    modifies oct
    ensures oct.Valid()
    ensures ok <==> maxColors >= 1
    ensures ok ==> oct.leafCount <= maxColors
    ensures forall m | m != Leaves :: Total(oct.nodes, [], m) == old(Total(oct.nodes, [], m))
    ensures oct.bitsPerPixel >= 1 && maxColors >= 8 && old(RootInner(oct.nodes)) ==> RootInner(oct.nodes)
  {
    ghost var start := oct.nodes;
    ghost var keep := oct.bitsPerPixel >= 1 && maxColors >= 8 && RootInner(start);
    while oct.leafCount > maxColors
      invariant oct.Valid()
      invariant forall m | m != Leaves :: Total(oct.nodes, [], m) == Total(start, [], m)
      invariant keep ==> RootInner(oct.nodes)
      decreases StackSize(oct.reducible)
    {
      ReduceCanProceed(oct.nodes, oct.bitsPerPixel, oct.reducible, oct.leafCount);
      ghost var u, su, lu := oct.nodes, oct.reducible, oct.leafCount;
      var done := oct.ReduceTree();
      if !done {
        return false;
      }
      ReduceRound(u, oct.bitsPerPixel, su, lu, maxColors, oct.nodes, oct.reducible, oct.leafCount);
    }
    PixelsNeedLeaves(oct.nodes, []);
    ok := true;
  }

  /** The inner scan loop: feed row `y`'s samples, left to right. False
      where a reduction faults. */
  method ScanRow(bmp: Bitmap, y: nat, maxColors: int, oct: Octree, ghost before: seq<Rgb>)
    returns (ok: bool, ghost seen: seq<Rgb>)
    requires WellFormed(bmp) && SampledDepth(bmp.format) && y < bmp.height
    requires oct.Valid() && (before == [] ==> oct.nodes == map[])
    requires before != [] ==> 1 <= maxColors && oct.leafCount <= maxColors
    requires forall m | m != Leaves :: Total(oct.nodes, [], m) == SumOf(before, m)
    requires oct.bitsPerPixel >= 1 && maxColors >= 8 ==> RootInner(oct.nodes)
    modifies oct
    ensures oct.Valid() && (oct.bitsPerPixel >= 1 && maxColors >= 8 ==> RootInner(oct.nodes))
    ensures ok <==> bmp.width == 0 || maxColors >= 1
    ensures ok ==> seen == before + RowSamples(bmp, y)
    ensures ok ==> (seen == [] ==> oct.nodes == map[])
    ensures ok ==> (seen != [] ==> 1 <= maxColors && oct.leafCount <= maxColors)
    ensures ok ==> forall m | m != Leaves :: Total(oct.nodes, [], m) == SumOf(seen, m)
  {
    seen := before;
    var x := 0;
    while x < bmp.width
      invariant x <= bmp.width && oct.Valid() && seen == before + RowSamples(bmp, y)[..x]
      invariant x > 0 ==> maxColors >= 1
      invariant seen == [] ==> oct.nodes == map[]
      invariant seen != [] ==> 1 <= maxColors && oct.leafCount <= maxColors
      invariant forall m | m != Leaves :: Total(oct.nodes, [], m) == SumOf(seen, m)
      invariant oct.bitsPerPixel >= 1 && maxColors >= 8 ==> RootInner(oct.nodes)
    {
      var c := SampleAt(bmp, y, x);
      ok := AddSample(oct, c, maxColors);
      if !ok {
        return;
      }
      forall m | m != Leaves
        ensures SumOf(seen + [c], m) == SumOf(seen, m) + Contribution(c, m)
      {
        SumOfSnoc(seen, c, m);
      }
      assert RowSamples(bmp, y)[..x + 1] == RowSamples(bmp, y)[..x] + [c];
      seen := seen + [c];
      x := x + 1;
    }
    assert RowSamples(bmp, y)[..x] == RowSamples(bmp, y);
    ok := true;
  }

  /** The outer scan loop: feed every row, top to bottom. False where a
      reduction faults, that is when the image has pixels and `maxColors`
      is below one. */
  method ScanImage(bmp: Bitmap, maxColors: int, oct: Octree) returns (ok: bool, ghost seen: seq<Rgb>)
    requires WellFormed(bmp) && SampledDepth(bmp.format)
    requires oct.Valid() && oct.nodes == map[]
    modifies oct
    ensures oct.Valid() && (oct.bitsPerPixel >= 1 && maxColors >= 8 ==> RootInner(oct.nodes))
    ensures ok <==> bmp.width == 0 || bmp.height == 0 || maxColors >= 1
    ensures ok ==> seen == Samples(bmp, bmp.height)
    ensures ok ==> (seen == [] ==> oct.nodes == map[])
    ensures ok ==> (seen != [] ==> 1 <= maxColors && oct.leafCount <= maxColors)
    ensures ok ==> forall m | m != Leaves :: Total(oct.nodes, [], m) == SumOf(seen, m)
  {
    seen := [];
    var y := 0;
    while y < bmp.height
      invariant y <= bmp.height && oct.Valid() && seen == Samples(bmp, y)
      invariant seen == [] ==> oct.nodes == map[]
      invariant seen != [] ==> 1 <= maxColors && oct.leafCount <= maxColors
      invariant forall m | m != Leaves :: Total(oct.nodes, [], m) == SumOf(seen, m)
      invariant oct.bitsPerPixel >= 1 && maxColors >= 8 ==> RootInner(oct.nodes)
    {
      ok, seen := ScanRow(bmp, y, maxColors, oct, seen);
      if !ok {
        return;
      }
      y := y + 1;
    }
    ok := true;
  }

  /** Each channel of the colour is the quotient of the wrapped sum, which
      the byte cast keeps; up to 16843009 samples (255 times that is
      2^32 - 1) no sum wraps and the colour is the samples' average. */
  lemma MeanColorIsAverage(s: seq<Rgb>)
    requires s != []
    ensures MeanColor(s).r as nat == UInt32(SumOf(s, Red)) / |s|
    ensures MeanColor(s).g as nat == UInt32(SumOf(s, Green)) / |s|
    ensures MeanColor(s).b as nat == UInt32(SumOf(s, Blue)) / |s|
    ensures |s| <= 16843009 ==>
      && MeanColor(s).r as nat == SumOf(s, Red) / |s|
      && MeanColor(s).g as nat == SumOf(s, Green) / |s|
      && MeanColor(s).b as nat == SumOf(s, Blue) / |s|
  {
    MeanOfWrapped(s, Red);
    MeanOfWrapped(s, Green);
    MeanOfWrapped(s, Blue);
  }

  lemma MeanOfWrapped(s: seq<Rgb>, m: Measure)
    requires s != [] && m != Leaves
    ensures Mean(UInt32(SumOf(s, m)), |s|) as nat == UInt32(SumOf(s, m)) / |s|
    ensures |s| <= 16843009 ==> UInt32(SumOf(s, m)) == SumOf(s, m)
  {
    var sum := SumOf(s, m);
    SumOfBounds(s, m);
    assert UInt32(sum) <= sum by {
      if sum < 0x1_0000_0000 {
        assert IsU32(sum);
      }
    }
    MeanIsQuotient(UInt32(sum), |s|);
    if |s| <= 16843009 {
      MulMono(255, |s|, 16843009);
      assert IsU32(sum);
    }
  }

  /** `n` copies of one sample add up to `n` times its contribution. */
  lemma {:induction false} SumOfCopies(n: nat, c: Rgb, m: Measure)
    ensures SumOf(seq(n, _ => c), m) == n * Contribution(c, m)
  {
    if n > 0 {
      var w, k := seq(n - 1, _ => c), Contribution(c, m);
      assert seq(n, _ => c) == w + [c];
      SumOfSnoc(w, c, m);
      SumOfCopies(n - 1, c, m);
      OneMoreCopy(n - 1, k);
    }
  }

  lemma OneMoreCopy(n: nat, k: nat)
    ensures n * k + k == (n + 1) * k
  {
  }

  /** The smallest white image whose red sum passes 2^32, with one black
      pixel: the red average is 254, but the wrapped sum divided by the
      count is 0, so the emitted colour is black. */
  lemma WrappedSumTurnsBlack()
    ensures var s := seq(16851024, _ => Rgb(255, 255, 255)) + [Rgb(0, 0, 0)];
      && SumOf(s, Red) / |s| == 254
      && MeanColor(s) == Color(255, 0, 0, 0)
  {
    var w := seq(16851024, _ => Rgb(255, 255, 255));
    var s := w + [Rgb(0, 0, 0)];
    forall m | m == Red || m == Green || m == Blue
      ensures SumOf(s, m) == 4297011120
    {
      SumOfCopies(16851024, Rgb(255, 255, 255), m);
      SumOfSnoc(w, Rgb(0, 0, 0), m);
    }
    assert UInt32(4297011120) == 2043824;
  }

  /** A root leaf holds every sample: its record is the tree's totals. */
  lemma RootLeafHoldsAll(t: map<Path, Node>, s: seq<Rgb>)
    requires [] in t && t[[]].isLeaf && s != []
    requires forall m | m != Leaves :: Total(t, [], m) == SumOf(s, m)
    ensures t[[]].pixelCount == |s|
    ensures LeafColor(t[[]]) == MeanColor(s)
  {
    SumOfBounds(s, Pixels);
    assert Total(t, [], Pixels) == t[[]].pixelCount;
    assert Total(t, [], Red) == t[[]].redSum;
    assert Total(t, [], Green) == t[[]].greenSum;
    assert Total(t, [], Blue) == t[[]].blueSum;
  }

  /** A `w` by `h` image has pixels exactly when neither side is zero. */
  lemma PixelsOfImage(w: nat, h: nat)
    ensures w * h > 0 <==> w > 0 && h > 0
  {
    MulMono(w, 1, h);
  }

  /** CreatePalette. `stock` is the colour table GDI+ gives a new 1x1 bitmap
      of `bitsPerPixel` bits (2, 16 or 256 entries). The ghost `tree` is the
      octree the scan built. */
  method CreatePalette(bmp: Bitmap, maxColors: int, bitsPerPixel: nat, stock: seq<Color>)
    returns (res: PaletteResult, ghost tree: map<Path, Node>)
    requires WellFormed(bmp)
    requires bitsPerPixel == 1 || bitsPerPixel == 4 || bitsPerPixel == 8 ==> |stock| == Pow2(bitsPerPixel)
    ensures res == Thrown(MaxColorsOutOfRange) <==> maxColors > Pow2(bitsPerPixel)
    ensures res == NoPalette <==>
      maxColors <= Pow2(bitsPerPixel) && (bitsPerPixel > 8 || !SampledDepth(bmp.format))
    ensures res == Thrown(Crash) <==>
      && maxColors <= Pow2(bitsPerPixel) && bitsPerPixel <= 8 && SampledDepth(bmp.format)
      && (bmp.width == 0 || bmp.height == 0 || maxColors <= 0
          || !(bitsPerPixel == 1 || bitsPerPixel == 4 || bitsPerPixel == 8))
    ensures res.Palette? ==> SampledDepth(bmp.format) && 1 <= maxColors && bmp.width * bmp.height > 0
    ensures res.Palette? ==>
      && Shaped(tree, bitsPerPixel) && [] in tree
      && Total(tree, [], Leaves) <= maxColors
      && forall m | m != Leaves :: Total(tree, [], m) == SumOf(Samples(bmp, bmp.height), m)
    ensures res.Palette? ==>
      var entries := res.entries;
      && |entries| == |stock|
      && (tree[[]].isLeaf ==>
            && entries[0] == MeanColor(Samples(bmp, bmp.height)) && entries[1] == stock[1]
            && forall i | 2 <= i < |entries| :: entries[i] == TransparentBlack)
      && (!tree[[]].isLeaf ==>
            && entries[0] == stock[0]
            && forall i | 1 <= i < |entries| :: entries[i] == TransparentBlack)
    ensures res.Palette? && maxColors >= 8 ==>
      && !tree[[]].isLeaf && res.entries[0] == stock[0]
      && forall i | 1 <= i < |res.entries| :: res.entries[i] == TransparentBlack
  {
    tree := map[];
    if maxColors > Pow2(bitsPerPixel) {
      return Thrown(MaxColorsOutOfRange), tree;
    }
    if bitsPerPixel > 8 {
      return NoPalette, tree;
    }
    var depth := BitsOf(bmp.format);
    if depth != 16 && depth != 24 && depth != 32 {
      return NoPalette, tree;
    }
    var oct := new Octree(bitsPerPixel);
    var ok;
    ghost var seen;
    ok, seen := ScanImage(bmp, maxColors, oct);
    PixelsOfImage(bmp.width, bmp.height);
    if !ok {
      return Thrown(Crash), oct.nodes;
    }
    tree := oct.nodes;
    // the sanity check that drops the tree when it still has too many leaves
    var rootPresent := [] in oct.nodes && !(oct.leafCount > maxColors);
    if bitsPerPixel != 1 && bitsPerPixel != 4 && bitsPerPixel != 8 {
      return Thrown(Crash), tree;
    }
    assert seen != [] ==> Total(tree, [], Pixels) > 0;
    if !rootPresent {
      return Thrown(Crash), tree;
    }
    var root := oct.nodes[[]];
    if root.isLeaf {
      RootLeafHoldsAll(tree, seen);
    }
    var entries := EmitPalette(root, stock);
    if entries.None? {
      return Thrown(Crash), tree;
    }
    res := Palette(entries.value);
  }
}
