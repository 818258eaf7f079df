/** Linking, rebalancing and hanging a subtree back: how the pieces of the memory make the tree after an insertion. */
module KavlLink {
  import opened ByteOrder
  import opened KavlShape
  import opened KavlRules
  import opened KavlInsert
  import opened KavlErase
  import opened KavlSearch
  import opened KavlMemory
  import opened KavlPaths
  import opened Sides

  /** The memory after the last node of `above` got `r` for a child. */
  ghost function Hung(m: Mem, above: Path, r: Elem?): Mem
    requires above != [] ==> above[|above| - 1].n in m
  {
    if above == [] then m else var f := above[|above| - 1]; m[f.n := m[f.n].SetKid(f.side, r)]
  }

  lemma LastIn(m: Mem, fs: Path, hole: Elem?)
    requires FIs(m, fs, hole) == true
    ensures fs != [] ==> fs[|fs| - 1].n in m && fs[|fs| - 1].n in FNodes(fs) && m[fs[|fs| - 1].n].Kid(fs[|fs| - 1].side) == hole
  {
    if fs != [] {
      var i := |fs| - 1;
      FrameAt(m, fs, i, hole);
      SplitAt(fs, i);
      var rest := [fs[i]] + fs[i + 1..];
      FDistinctSum(fs[..i], rest);
      FDistinctSum([fs[i]], fs[i + 1..]);
      FNodesOne(fs[i]);
    }
  }

  lemma {:induction false} FNodesIn(m: Mem, fs: Path, hole: Elem?)
    requires FIs(m, fs, hole)
    ensures FNodes(fs) <= m.Keys
  {
    if fs != [] {
      IsNodes(m, fs[0].sib);
      FNodesIn(m, fs[1..], hole);
    }
  }

  ghost function NewLeaf(x: Elem): Tree { Node(Leaf, x, 0, 1, Leaf) }

  /** A new leaf in the hole. */
  lemma LinkIs(m: Mem, fs: Path, x: Elem)
    requires FIs(m, fs, null) && FDistinct(fs) && x !in m
    ensures var m1 := m[x := Cell(null, null, 0, 1)];
      && (fs != [] ==> fs[|fs| - 1].n in m1) && x !in FNodes(fs)
      && FIs(Hung(m1, fs, x), fs, x) && Is(Hung(m1, fs, x), NewLeaf(x)) && Hung(m1, fs, x).Keys == m.Keys + {x}
  {
    var m1 := m[x := Cell(null, null, 0, 1)];
    FNodesIn(m, fs, null);
    FIsFrame(m, m1, fs, null, {x});
    LastIn(m1, fs, null);
    if fs != [] {
      RehangAt(m1, Hung(m1, fs, x), fs, null, x);
    }
  }

  /** The subtree at `bp`, after the path was counted and tilted, and what is above it. */
  lemma GrownMemory(m: Mem, fs: Path, k: nat, x: Elem)
    requires Deepest(fs, k) && FAvl(fs, 0) && FDistinct(fs) && x !in FNodes(fs)
    requires FIs(m, Tilted(Counted(fs, 0, |fs|, 1), k, |fs|), x) && Is(m, NewLeaf(x))
    ensures var cs := Counted(fs, 0, |fs|, 1);
      var u := Grown(cs[k..], x);
      && u.Node? && u.n == fs[k].n && FIs(m, cs[..k], fs[k].n) && Is(m, u) && Apart(cs[..k], u)
  {
    hide *;
    var cs := Counted(fs, 0, |fs|, 1);
    var ts := Tilted(cs, k, |fs|);
    DeepestAt(fs, k);
    LowPath(fs, k);
    GrownAvl(cs[k..], x);
    TiltedSplit(cs, k);
    FIsSum(m, cs[..k], ts[k..], x);
    GrownIs(cs[k..], x);
    IsFill(m, ts[k..], NewLeaf(x));
    LeafNodes(x);
    NewLeafIs(x);
    AlikeBoth(fs, k);
    AlikeRules(fs, ts, 0, 0);
    FDistinctSum(cs[..k], ts[k..]);
    DistinctFill(ts[k..], NewLeaf(x));
    ApartIs(cs[..k], Grown(cs[k..], x));
    HeadAt(ts, k, x);
  }

  lemma DeepestAt(fs: Path, k: nat)
    requires Deepest(fs, k)
    ensures k < |fs| == |Counted(fs, 0, |fs|, 1)| && Counted(fs, 0, |fs|, 1)[k].n == fs[k].n
    ensures |Tilted(Counted(fs, 0, |fs|, 1), k, |fs|)| == |fs| && Tilted(Counted(fs, 0, |fs|, 1), k, |fs|)[k].n == fs[k].n
  {
  }

  lemma TiltedSplit(cs: Path, k: nat)
    requires k <= |cs|
    ensures var ts := Tilted(cs, k, |cs|);
      |ts| == |cs| && ts == cs[..k] + ts[k..] && ts[k..] == Tilted(cs[k..], 0, |cs| - k) && ts[..k] == cs[..k]
  {
  }

  lemma GrownIs(lo: Path, x: Elem)
    ensures Grown(lo, x) == Fill(Tilted(lo, 0, |lo|), NewLeaf(x))
  {
  }

  lemma NewLeafIs(x: Elem)
    ensures NewLeaf(x) == Node(Leaf, x, 0, 1, Leaf) && NewLeaf(x).Root() == x
  {
  }

  lemma AlikeBoth(fs: Path, k: nat)
    ensures Alike(fs, Tilted(Counted(fs, 0, |fs|, 1), k, |fs|))
  {
  }

  lemma HeadAt(ts: Path, k: nat, x: Elem)
    requires k < |ts|
    ensures Head(ts[k..], x) == ts[k].n
  {
  }

  /** The path above and the subtree in its hole have no node in common, and none twice. */
  ghost predicate Apart(above: Path, u: Tree) {
    FDistinct(above) && Distinct(u) && FNodes(above) !! Nodes(u)
  }

  lemma ApartIs(above: Path, u: Tree)
    ensures Apart(above, u) <==> FDistinct(above) && Distinct(u) && FNodes(above) !! Nodes(u)
  {
  }

  /** A rebuilt subtree `v` is hung where `u` was. */
  lemma RehungIs(m: Mem, m1: Mem, above: Path, u: Tree, v: Tree)
    requires FIs(m, above, u.Root()) && Apart(above, u) && Only(m, m1, Nodes(u)) && Is(m1, v) && Nodes(v) <= Nodes(u)
    ensures above != [] ==> above[|above| - 1].n in m1
    ensures Hung(m1, above, v.Root()).Keys == m1.Keys
    ensures Is(Hung(m1, above, v.Root()), v) && FIs(Hung(m1, above, v.Root()), above, v.Root())
    ensures Is(Hung(m1, above, v.Root()), Fill(above, v))
  {
    hide FIs, Is, FDistinct, Distinct, FNodes, Nodes, Fill;
    FIsFrame(m, m1, above, u.Root(), Nodes(u));
    LastIn(m1, above, u.Root());
    var m2 := Hung(m1, above, v.Root());
    if above != [] {
      RehangAt(m1, m2, above, u.Root(), v.Root());
      IsFrame(m1, m2, v, {above[|above| - 1].n});
    } else {
      EmptyPath(m2, above, v.Root(), u.Root());
    }
    IsFill(m2, above, v);
  }

  lemma EmptyPath(m: Mem, fs: Path, hole: Elem?, hole': Elem?)
    requires fs == []
    ensures FIs(m, fs, hole)
  {
  }

  /** Which child of the last node of the path leads on: `bp != bq->p[0]`. */
  lemma WhichChild(m: Mem, above: Path, u: Tree)
    requires FIs(m, above, u.Root()) && Apart(above, u) && above != [] && u.Node?
    ensures above[|above| - 1].n in m && (m[above[|above| - 1].n].left == u.n <==> above[|above| - 1].side == L)
  {
    var i := |above| - 1;
    FrameAt(m, above, i, u.Root());
    DistinctAt(above, i);
    if above[i].sib.Root() != null {
      RootIn(above[i].sib);
    }
    RootIn(u);
  }

  lemma RootIn(t: Tree)
    requires t.Root() != null
    ensures t.Root() in Nodes(t)
  {
  }

  // ---------------------------------------------------------------- the tree after an insertion

  /** `s` with `x` at its place. */
  ghost function With(s: seq<Elem>, x: Elem): seq<Elem>
    requires Rank(s, x.data) <= |s|
  {
    s[..Rank(s, x.data)] + [x] + s[Rank(s, x.data)..]
  }

  lemma WithIs(s: seq<Elem>, a: seq<Elem>, b: seq<Elem>, x: Elem)
    requires s == a + b && Rank(s, x.data) == |a|
    ensures Rank(s, x.data) <= |s| && With(s, x) == a + [x] + b
  {
    assert s[..|a|] == a && s[|a|..] == b;
  }

  lemma AllCounted(fs: Path, shape: Tree)
    requires Fill(fs, Leaf) == shape
    ensures FCount(fs, 0) == Count(shape)
  {
    FillRules(fs, Leaf);
  }

  /** The tree is as it should be, with exactly `x` more. */
  lemma InsertSound(shape: Tree, fs: Path, k: nat, x: Elem)
    requires Sound(shape) && Place(shape, fs, Leaf, x.data) && Deepest(fs, k) && Count(shape) < 0xFFFF_FFFF && x !in Nodes(shape)
    ensures FAvl(fs, 0) && FDistinct(fs) && Rank(Inorder(shape), x.data) <= |Inorder(shape)|
    ensures Sound(Inserted(fs, k, x)) && Nodes(Inserted(fs, k, x)) == Nodes(shape) + {x}
    ensures Inorder(Inserted(fs, k, x)) == With(Inorder(shape), x)
  {
    PlaceInorder(shape, fs, Leaf, x.data);
    PlaceNone(shape, fs, x.data);
    AllCounted(fs, shape);
    LeafMeasures();
    PlaceParts(shape, fs, x.data);
    hide Inorder, Avl, Sized, Distinct, Fill, FAvl, FSized, FDistinct, FNodes, Nodes, Inserted, Before, After, Deepest, Count, FCount;
    InsertedKeeps(fs, k, x);
    WithIs(Inorder(shape), Before(fs), After(fs), x);
    AscendingWith(Before(fs), x, After(fs));
  }

  lemma PlaceParts(shape: Tree, fs: Path, k: Bytes)
    requires Place(shape, fs, Leaf, k)
    ensures Below(Before(fs), k) && Above(After(fs), k)
  {
  }

  lemma LeafMeasures()
    ensures H(Leaf) == 0 && Count(Leaf) == 0 && Nodes(Leaf) == {}
  {
  }

  lemma LoneSound(x: Elem)
    ensures Sound(NewLeaf(x)) && Nodes(NewLeaf(x)) == {x} && NewLeaf(x).Root() == x && Inorder(NewLeaf(x)) == [x]
    ensures Rank(Inorder(Leaf), x.data) == 0 && With(Inorder(Leaf), x) == [x]
  {
    LeafRules(x);
    LeafNodes(x);
    assert With(Inorder(Leaf), x) == [] + [x] + [];
  }

  /** What the insertion makes, by the balance at `bp`. */
  lemma InsertedIs(fs: Path, k: nat, x: Elem)
    requires Deepest(fs, k) && FAvl(fs, 0)
    ensures var cs := Counted(fs, 0, |fs|, 1);
      var u := Grown(cs[k..], x);
      && k < |fs| && u.Node?
      && (-2 < u.b < 2 ==> Inserted(fs, k, x) == Fill(cs[..k], u))
      && (!(-2 < u.b < 2) ==>
          && Lower(u) == (if u.b < 0 then R else L) && Tipped(u, Lower(u)) && u.Near(Lower(u).Flip()).Node?
          && u.Near(Lower(u).Flip()).b != 0 && Inserted(fs, k, x) == Fill(cs[..k], Turn(u, Lower(u)))
          && Nodes(Turn(u, Lower(u))) == Nodes(u))
  {
    LowPath(fs, k);
    DeepestAt(fs, k);
    var cs := Counted(fs, 0, |fs|, 1);
    var u := Grown(cs[k..], x);
    GrownAvl(cs[k..], x);
    if !(-2 < u.b < 2) {
      TurnKeeps(u, Lower(u));
    }
    hide Turn, Grown, Fill, Tipped, Nodes, Counted, FAvl, Deepest;
  }

  /** The node above the path's hole, or NULL at the root. */
  ghost function LastNode(fs: Path): Elem? {
    if fs == [] then null else fs[|fs| - 1].n
  }

  lemma HungIs(m: Mem, above: Path, r: Elem?)
    requires above != [] ==> above[|above| - 1].n in m
    ensures LastNode(above) == null ==> above == [] && Hung(m, above, r) == m
    ensures LastNode(above) != null ==>
      && above != [] && LastNode(above) == above[|above| - 1].n
      && Hung(m, above, r) == m[LastNode(above) := m[LastNode(above)].SetKid(above[|above| - 1].side, r)]
  {
  }

  lemma FillTopNode(above: Path, v: Tree, root: Elem?)
    ensures LastNode(above) == null ==> Fill(above, v).Root() == v.Root()
    ensures LastNode(above) != null && root == Head(above, null) ==> Fill(above, v).Root() == root
  {
  }

  lemma WhichStill(m: Mem, m1: Mem, above: Path, u: Tree)
    requires FIs(m, above, u.Root()) == true && Apart(above, u) == true && Only(m, m1, Nodes(u)) == true && u.Node? && LastNode(above) != null
    ensures above != [] && above[|above| - 1].n == LastNode(above) && LastNode(above) in m1
    ensures (if m1[LastNode(above)].left == u.n then L else R) == above[|above| - 1].side
  {
    hide FIs, FNodes, Nodes, FDistinct, Distinct;
    WhichChild(m, above, u);
    LastIn(m, above, u.Root());
  }

  /** The rebalancing happens below the path above `bp`. */
  lemma AboveIs(fs: Path, k: nat, x: Elem)
    requires Deepest(fs, k)
    ensures var cs := Counted(fs, 0, |fs|, 1);
      && k <= |cs| && LastNode(cs[..k]) == (if k == 0 then null else fs[k - 1].n)
      && (k > 0 ==> Head(cs[..k], null) == fs[0].n) && (k == 0 ==> cs[..k] == [])
  {
  }

  /** Where an insertion stands, in terms of the path. */
  lemma SpotIs(shape: Tree, fs: Path, k: nat, bp: Elem?, bq: Elem?, q: Elem?, which: Side, x: Bytes)
    requires Spot(fs, Leaf, k, bp, bq, q, which) && Place(shape, fs, Leaf, x)
    ensures q == (if fs == [] then null else fs[|fs| - 1].n) && (fs != [] ==> which == fs[|fs| - 1].side)
    ensures shape == Fill(fs, Leaf) && shape.Root() == Next(fs, 0, null)
    ensures bp == null ==> fs == [] && shape == Leaf
    ensures bp != null ==>
      && Deepest(fs, k) == true && k < |fs| && bp == fs[k].n == Next(fs, k, null) && bq == (if k == 0 then null else fs[k - 1].n)
      && forall y: Elem :: Next(fs, 0, y) == fs[0].n && Next(fs, k, y) == bp
  {
    FillRoot(fs, Leaf);
  }

  lemma CountedAlike(fs: Path, d: int)
    ensures Alike(fs, Counted(fs, 0, |fs|, d))
  {
  }

  /** The counted path has the same nodes. */
  lemma CountedSame(fs: Path, d: int, k: nat, x: Elem)
    ensures var cs := Counted(fs, 0, |fs|, d);
      |cs| == |fs| && FNodes(cs) == FNodes(fs) && FDistinct(cs) == FDistinct(fs) && Next(cs, k, x) == Next(fs, k, x)
  {
    CountedAlike(fs, d);
    AlikeRules(fs, Counted(fs, 0, |fs|, d), 0, 0);
  }

  lemma CountedTurns(dirs: seq<Side>, fs: Path, d: int, k: nat, top: nat)
    requires Turns(dirs, fs, k, top)
    ensures Turns(dirs, Counted(fs, 0, |fs|, d), k, top)
  {
  }

  /** Writes on the path do not touch the new leaf. */
  lemma LeafStays(m: Mem, m': Mem, x: Elem, s: set<Elem>)
    requires Is(m, NewLeaf(x)) == true && Only(m, m', s) == true && x !in s
    ensures Is(m', NewLeaf(x)) == true
  {
    LeafNodes(x);
    IsFrame(m, m', NewLeaf(x), s);
  }

  lemma StillApart(shape: Tree, fs: Path, x: Elem, m: Mem)
    requires Sound(shape) && Place(shape, fs, Leaf, x.data) && x !in m && m.Keys == Nodes(shape) && Is(m, shape)
    ensures x !in FNodes(fs) && FDistinct(fs) == true && FAvl(fs, 0) == true && FIs(m, fs, null) == true
  {
    PlaceInorder(shape, fs, Leaf, x.data);
    LeafMeasures();
    IsFill(m, fs, Leaf);
  }
}
