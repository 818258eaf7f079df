/** What inserting does to the shape: counting on the path, tilting below the deepest unbalanced node, one rotation there. */
module KavlInsert {
  import opened KavlShape
  import opened KavlRules
  import opened Sides

  /** The frames from `lo` up to `hi` with `d` added to their sizes. */
  ghost function Counted(fs: Path, lo: nat, hi: nat, d: int): (r: Path)
    ensures |r| == |fs| && forall j :: 0 <= j < |r| ==> r[j] == if lo <= j < hi then fs[j].Mark(fs[j].b, fs[j].z + d) else fs[j]
  {
    seq(|fs|, j requires 0 <= j < |fs| => if lo <= j < hi then fs[j].Mark(fs[j].b, fs[j].z + d) else fs[j])
  }

  /** The frames from `lo` up to `hi` with their balance moved towards the path. */
  ghost function Tilted(fs: Path, lo: nat, hi: nat): (r: Path)
    ensures |r| == |fs|
    ensures forall j :: 0 <= j < |r| ==> r[j] == if lo <= j < hi then fs[j].Mark(fs[j].b - Away(fs[j].side), fs[j].z) else fs[j]
  {
    seq(|fs|, j requires 0 <= j < |fs| => if lo <= j < hi then fs[j].Mark(fs[j].b - Away(fs[j].side), fs[j].z) else fs[j])
  }

  /** Frames that differ in what the nodes store only. */
  ghost predicate Alike(a: Path, b: Path) {
    |a| == |b| && forall j :: 0 <= j < |a| ==> b[j] == a[j].Mark(b[j].b, b[j].z)
  }

  lemma {:induction false} AlikeRules(a: Path, b: Path, h: nat, c: nat)
    requires Alike(a, b)
    ensures Before(a) == Before(b) && After(a) == After(b) && FNodes(a) == FNodes(b) && FDistinct(a) == FDistinct(b)
    ensures FH(a, h) == FH(b, h) && FCount(a, c) == FCount(b, c)
  {
    if a != [] {
      AlikeRules(a[1..], b[1..], h, c);
    }
  }

  /** One more, or one less, in the hole is one more, or one less, in every subtree on the path. */
  lemma {:induction false} CountedRules(fs: Path, c: nat, d: int, h: nat)
    requires FSized(fs, c) && c + d >= 0
    ensures FSized(Counted(fs, 0, |fs|, d), c + d) && FCount(fs, c + d) == FCount(fs, c) + d
    ensures FAvl(Counted(fs, 0, |fs|, d), h) == FAvl(fs, h)
  {
    var gs := Counted(fs, 0, |fs|, d);
    if fs != [] {
      CountedRules(fs[1..], c, d, h);
      assert gs[1..] == Counted(fs[1..], 0, |fs| - 1, d);
      AlikeRules(fs[1..], gs[1..], h, c + d);
    }
  }

  /** Below the deepest unbalanced node every subtree grows by one level. */
  lemma {:induction false} GrowFlat(fs: Path, h: nat)
    requires FAvl(fs, h) && forall j :: 0 <= j < |fs| ==> fs[j].b == 0
    ensures FAvl(Tilted(fs, 0, |fs|), h + 1) && FH(Tilted(fs, 0, |fs|), h + 1) == FH(fs, h) + 1
  {
    if fs != [] {
      GrowFlat(fs[1..], h);
      assert Tilted(fs, 0, |fs|)[1..] == Tilted(fs[1..], 0, |fs| - 1);
      GrowFrame(fs[0], fs[1..], Tilted(fs[1..], 0, |fs| - 1), h);
    }
  }

  lemma GrowFrame(f: Frame, fs: Path, gs: Path, h: nat)
    requires f.b == 0 && FrameAvl(f, FH(fs, h)) && FH(gs, h + 1) == FH(fs, h) + 1
    ensures FrameAvl(f.Mark(f.b - Away(f.side), f.z), FH(gs, h + 1)) && 1 + Max(FH(gs, h + 1), H(f.sib)) == 1 + Max(FH(fs, h), H(f.sib)) + 1
  {
    hide FH, H, Avl;
  }

  /** The rebalancing at the node that is out of balance: `which` is `dir`. */
  ghost function Turn(u: Tree, dir: Side): Tree
    requires Tipped(u, dir)
  {
    TippedNodes(u, dir);
    if u.Near(dir.Flip()).b == Away(dir) then Rot1(u, dir, 0, 0)
    else if u.Near(dir.Flip()).Near(dir).Leaf? then u
    else Rot2(u, dir)
  }

  /** `which = (bp->balance < 0)` */
  ghost function Lower(u: Tree): Side
    requires u.Node?
  {
    if u.b < 0 then R else L
  }

  /** The subtree at the deepest unbalanced node, grown by one level below. */
  lemma GrownTop(f: Frame, h: nat, t: Tree)
    requires FrameAvl(f, h) && H(t) == h + 1 && Avl(t)
    ensures var u := f.Mark(f.b - Away(f.side), f.z).With(t);
      && (-2 < u.b < 2 ==> Avl(u) && H(u) == (if f.b == 0 then 1 else 0) + 1 + Max(h, H(f.sib)))
      && (!(-2 < u.b < 2) ==>
          && Tipped(u, Lower(u)) && u.Near(Lower(u).Flip()) == t && H(u) == 2 + Max(h, H(f.sib))
          && f.b != 0)
  {
    hide H, Count, Avl, Sized;
    var g := f.Mark(f.b - Away(f.side), f.z);
    WithRules(g, t);
  }

  /** What is left where `lo` hung, with the new leaf `x` below it. */
  ghost function Grown(lo: Path, x: Elem): Tree {
    Fill(Tilted(lo, 0, |lo|), Node(Leaf, x, 0, 1, Leaf))
  }

  ghost predicate Flat(lo: Path) {
    lo != [] && forall j :: 0 < j < |lo| ==> lo[j].b == 0
  }

  ghost function Repaired(lo: Path, x: Elem): Tree
    requires Flat(lo) && FAvl(lo, 0)
  {
    GrownAvl(lo, x);
    var u := Grown(lo, x);
    if -2 < u.b < 2 then u else Turn(u, Lower(u))
  }

  lemma GrownAvl(lo: Path, x: Elem)
    requires Flat(lo) && FAvl(lo, 0)
    ensures var u := Grown(lo, x);
      && u.Node? && u.n == lo[0].n && u.b == lo[0].b - Away(lo[0].side)
      && (-2 < u.b < 2 ==> Avl(u) && H(u) == FH(lo, 0) + if lo[0].b == 0 then 1 else 0)
      && (!(-2 < u.b < 2) ==>
          && Tipped(u, Lower(u)) && H(u) == FH(lo, 0) + 1 && u.Near(Lower(u).Flip()).Node?
          && u.Near(Lower(u).Flip()).b != 0 && lo[0].b != 0)
  {
    hide H, Count, Avl, Sized, Tipped, Fill, FrameAvl;
    var (f, rest, leaf) := (lo[0], lo[1..], Node(Leaf, x, 0, 1, Leaf));
    var g := Tilted(rest, 0, |rest|);
    LeafRules(x);
    GrowFlat(rest, 0);
    FillRules(g, leaf);
    GrownSplit(lo, x);
    GrownTop(f, FH(rest, 0), Fill(g, leaf));
    if g == [] {
      GrownBottom(f, leaf, rest);
    } else {
      FillTop(g, leaf);
    }
  }

  lemma LeafRules(x: Elem)
    ensures var leaf := Node(Leaf, x, 0, 1, Leaf); H(leaf) == 1 && Avl(leaf) && Count(leaf) == 1 && Sized(leaf) && Inorder(leaf) == [x]
  {
    assert H(Leaf) == 0;
  }

  lemma GrownSplit(lo: Path, x: Elem)
    requires lo != []
    ensures var (f, rest) := (lo[0], lo[1..]);
      Grown(lo, x) == f.Mark(f.b - Away(f.side), f.z).With(Fill(Tilted(rest, 0, |rest|), Node(Leaf, x, 0, 1, Leaf)))
  {
    assert Tilted(lo, 0, |lo|)[1..] == Tilted(lo[1..], 0, |lo| - 1);
  }

  lemma FillTop(g: Path, t: Tree)
    requires g != []
    ensures Fill(g, t).Node? && Fill(g, t).b == g[0].b && Fill(g, t).n == g[0].n
  {
  }

  /** A node just above the new leaf cannot tip over. */
  lemma GrownBottom(f: Frame, leaf: Tree, rest: Path)
    requires rest == [] && FrameAvl(f, FH(rest, 0))
    ensures -2 < f.b - Away(f.side) < 2
  {
  }

  /** The repaired subtree is balanced, and as high as before unless it reaches up to the root. */
  lemma RepairedAvl(lo: Path, x: Elem)
    requires Flat(lo) && FAvl(lo, 0)
    ensures Avl(Repaired(lo, x)) && H(Repaired(lo, x)) == FH(lo, 0) + if lo[0].b == 0 then 1 else 0
  {
    hide H, Count, Avl, Sized, Tipped, Fill, FrameAvl, Grown;
    GrownAvl(lo, x);
    var u := Grown(lo, x);
    if !(-2 < u.b < 2) {
      TurnAvl(u, Lower(u));
    }
  }

  lemma TurnAvl(u: Tree, dir: Side)
    requires Tipped(u, dir) && u.Near(dir.Flip()).Node? && u.Near(dir.Flip()).b != 0
    ensures Avl(Turn(u, dir)) && H(Turn(u, dir)) == H(u) - 1
  {
    hide H, Count, Sized, Rot1, Rot2;
    TippedNodes(u, dir);
    var q := u.Near(dir.Flip());
    if q.b == Away(dir) {
      Rot1Lowers(u, dir);
    } else {
      assert q.b == -Away(dir);
      Rot2Lowers(u, dir);
    }
  }

  lemma TurnKeeps(u: Tree, dir: Side)
    requires Tipped(u, dir) && u.Near(dir.Flip()).Node?
    ensures Inorder(Turn(u, dir)) == Inorder(u) && Nodes(Turn(u, dir)) == Nodes(u)
    ensures Distinct(u) ==> Distinct(Turn(u, dir))
    ensures Sized(u) ==> Sized(Turn(u, dir)) && Count(Turn(u, dir)) == Count(u)
  {
    assert u.Node?;
    hide H, Count, Sized, Rot1, Rot2, Inorder, Nodes, Distinct, Avl, Tipped;
    TippedNodes(u, dir);
    var q := u.Near(dir.Flip());
    if q.b == Away(dir) {
      Rot1Inorder(u, dir, 0, 0);
      Rot1Distinct(u, dir, 0, 0);
      if Sized(u) {
        Rot1Sized(u, dir, 0, 0);
      }
    } else if q.Near(dir).Node? {
      Rot2Inorder(u, dir);
      Rot2Distinct(u, dir);
      if Sized(u) {
        Rot2Sized(u, dir);
      }
    }
  }

  // ---------------------------------------------------------------- the whole insertion

  /** `k` is where the source's `bp` is: the deepest node on the path that is out of balance, or the root. */
  ghost predicate Deepest(fs: Path, k: nat) {
    k < |fs| && (forall j :: k < j < |fs| ==> fs[j].b == 0) && (fs[k].b == 0 ==> k == 0)
  }

  /** The tree after the insertion of `x` in the hole of `fs`. */
  ghost function Inserted(fs: Path, k: nat, x: Elem): Tree
    requires Deepest(fs, k) && FAvl(fs, 0)
  {
    var cs := Counted(fs, 0, |fs|, 1);
    LowPath(fs, k);
    Fill(cs[..k], Repaired(cs[k..], x))
  }

  lemma LowPath(fs: Path, k: nat)
    requires Deepest(fs, k) && FAvl(fs, 0)
    ensures var cs := Counted(fs, 0, |fs|, 1);
      Flat(cs[k..]) && FAvl(cs[k..], 0) && FAvl(cs[..k], FH(cs[k..], 0)) && cs[k].b == fs[k].b && FAvl(cs, 0)
  {
    hide FAvl, FH, FSized;
    var cs := Counted(fs, 0, |fs|, 1);
    CountedAvl(fs, 1, 0);
    assert cs == cs[..k] + cs[k..];
    FSumRules(cs[..k], cs[k..], 0, 0);
  }

  lemma {:induction false} CountedAvl(fs: Path, d: int, h: nat)
    ensures FAvl(Counted(fs, 0, |fs|, d), h) == FAvl(fs, h)
  {
    var gs := Counted(fs, 0, |fs|, d);
    if fs != [] {
      CountedAvl(fs[1..], d, h);
      assert gs[1..] == Counted(fs[1..], 0, |fs| - 1, d);
      AlikeRules(fs[1..], gs[1..], h, 0);
    }
  }

  lemma RepairedKeeps(lo: Path, x: Elem)
    requires Flat(lo) && FAvl(lo, 0)
    ensures var (u, r) := (Grown(lo, x), Repaired(lo, x));
      && Inorder(r) == Inorder(u) && Nodes(r) == Nodes(u) && (Distinct(u) ==> Distinct(r))
      && (Sized(u) ==> Sized(r) && Count(r) == Count(u))
  {
    hide H, Count, Avl, Sized, Tipped, FAvl, Flat, Inorder, Nodes, Distinct, Grown;
    GrownAvl(lo, x);
    var u := Grown(lo, x);
    if !(-2 < u.b < 2) {
      TurnKeeps(u, Lower(u));
    }
  }

  lemma {:induction false} TiltedSized(fs: Path, c: nat)
    ensures FSized(Tilted(fs, 0, |fs|), c) == FSized(fs, c)
  {
    var gs := Tilted(fs, 0, |fs|);
    if fs != [] {
      TiltedSized(fs[1..], c);
      assert gs[1..] == Tilted(fs[1..], 0, |fs| - 1);
      AlikeRules(fs[1..], gs[1..], 0, c);
    }
  }

  lemma InsertedAvl(fs: Path, k: nat, x: Elem)
    requires Deepest(fs, k) && FAvl(fs, 0)
    ensures Avl(Inserted(fs, k, x))
  {
    hide H, Count, Avl, Sized, FAvl, FH, Fill, Repaired;
    var cs := Counted(fs, 0, |fs|, 1);
    LowPath(fs, k);
    RepairedAvl(cs[k..], x);
    FillRules(cs[..k], Repaired(cs[k..], x));
    if k == 0 {
      EmptyAvl(cs[..k], H(Repaired(cs[k..], x)));
    }
  }

  lemma EmptyAvl(fs: Path, h: nat)
    requires fs == []
    ensures FAvl(fs, h)
  {
  }

  lemma InsertedSized(fs: Path, k: nat, x: Elem)
    requires Deepest(fs, k) && FAvl(fs, 0) && FSized(fs, 0)
    ensures Sized(Inserted(fs, k, x)) && Count(Inserted(fs, k, x)) == FCount(fs, 0) + 1
  {
    hide H, Count, Avl, Sized, FAvl, FH, Fill, Repaired, FSized, FCount, Flat;
    var cs := Counted(fs, 0, |fs|, 1);
    var lo := cs[k..];
    LowPath(fs, k);
    CountedRules(fs, 0, 1, 0);
    AlikeRules(fs, cs, 0, 1);
    assert cs == cs[..k] + lo;
    FSumRules(cs[..k], lo, 0, 1);
    TiltedSized(lo, 1);
    AlikeRules(lo, Tilted(lo, 0, |lo|), 0, 1);
    LeafRules(x);
    FillRules(Tilted(lo, 0, |lo|), Node(Leaf, x, 0, 1, Leaf));
    RepairedKeeps(lo, x);
    FillRules(cs[..k], Repaired(lo, x));
  }

  lemma InsertedSame(fs: Path, k: nat, x: Elem)
    requires Deepest(fs, k) && FAvl(fs, 0)
    ensures Inorder(Inserted(fs, k, x)) == Before(fs) + [x] + After(fs)
    ensures Nodes(Inserted(fs, k, x)) == FNodes(fs) + {x}
    ensures FDistinct(fs) && x !in FNodes(fs) ==> Distinct(Inserted(fs, k, x))
  {
    hide H, Count, Avl, Sized, FAvl, FH, Fill, Repaired, Flat, Inorder, Nodes, Distinct, Before, After, FNodes, FDistinct;
    var cs := Counted(fs, 0, |fs|, 1);
    var lo := cs[k..];
    LowPath(fs, k);
    var (tl, leaf) := (Tilted(lo, 0, |lo|), Node(Leaf, x, 0, 1, Leaf));
    RepairedKeeps(lo, x);
    AlikeRules(fs, cs[..k] + tl, 0, 0);
    BeforeSum(cs[..k], tl);
    FDistinctSum(cs[..k], tl);
    LeafRules(x);
    LeafNodes(x);
    InorderFill(tl, leaf);
    DistinctFill(tl, leaf);
    InorderFill(cs[..k], Repaired(lo, x));
    DistinctFill(cs[..k], Repaired(lo, x));
    Wrap(Before(cs[..k]), Before(tl), [x], After(tl), After(cs[..k]));
  }

  lemma LeafNodes(x: Elem)
    ensures Nodes(Node(Leaf, x, 0, 1, Leaf)) == {x} && Distinct(Node(Leaf, x, 0, 1, Leaf))
  {
    assert Nodes(Leaf) == {};
  }

  /** Insertion keeps every balance field, every size field, and adds exactly `x` at its place. */
  lemma InsertedKeeps(fs: Path, k: nat, x: Elem)
    requires Deepest(fs, k) && FAvl(fs, 0) && FSized(fs, 0) && FDistinct(fs) && x !in FNodes(fs)
    ensures Avl(Inserted(fs, k, x)) && Sized(Inserted(fs, k, x)) && Distinct(Inserted(fs, k, x))
    ensures Inorder(Inserted(fs, k, x)) == Before(fs) + [x] + After(fs)
    ensures Nodes(Inserted(fs, k, x)) == FNodes(fs) + {x} && Count(Inserted(fs, k, x)) == FCount(fs, 0) + 1
  {
    hide *;
    InsertedAvl(fs, k, x);
    InsertedSized(fs, k, x);
    InsertedSame(fs, k, x);
  }
}
