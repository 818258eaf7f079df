/** How the pieces of the memory fit again after a node was replaced by the next one in order. */
module KavlUnlink {
  import opened ByteOrder
  import opened KavlShape
  import opened KavlRules
  import opened KavlInsert
  import opened KavlErase
  import opened KavlSearch
  import opened KavlMemory
  import opened KavlPaths
  import opened KavlLink
  import opened Sides

  /** The path `c` leading to `x`, the spine `s` leading to `y`, and two subtrees beside them. */
  datatype Cut = Cut(c: Path, x: Elem?, s: Path, y: Elem?, l: Tree, h: Tree)

  ghost predicate Pieces(m: Mem, k: Cut) {
    FIs(m, k.c, k.x) && FIs(m, k.s, k.y) && Is(m, k.l) && Is(m, k.h)
  }

  /** No node is in two of the pieces, and `r` is in none. */
  ghost predicate Separate(k: Cut, r: Elem) {
    var (c, s, l, h) := (k.c, k.s, k.l, k.h);
    && FDistinct(c) && FDistinct(s)
    && r !in FNodes(c) && r !in FNodes(s) && r !in Nodes(l) && r !in Nodes(h)
    && FNodes(c) !! FNodes(s) && FNodes(c) !! Nodes(l) && FNodes(c) !! Nodes(h)
    && FNodes(s) !! Nodes(l) && FNodes(s) !! Nodes(h)
  }

  /** The pieces that a node with a right child and the path to it fall into. */
  lemma FallsApart(m: Mem, c: Path, t: Tree)
    requires FIs(m, c, t.Root()) && Is(m, t) && Apart(c, t) && t.Node? && t.right.Node?
    ensures var (s, mn) := (Spine(t.right), Min(t.right));
      && Pieces(m, Cut(c, t.n, s, mn.n, t.left, mn.right)) && Separate(Cut(c, t.n, s, mn.n, t.left, mn.right), mn.n)
      && mn.n in m && m[mn.n] == Cell(null, mn.right.Root(), mn.b, mn.z) && t.n in m && m[t.n] == t.Image() && t.n != mn.n
      && t.n !in FNodes(c) && t.n !in FNodes(s)
      && t.right.n == Next(s, 0, mn.n)
  {
    hide FIs, Is, FDistinct, Distinct, FNodes, Nodes, Spine, Min;
    var (s, mn) := (Spine(t.right), Min(t.right));
    IsNear(m, t, R);
    SpineFill(t.right);
    IsFill(m, s, mn);
    FillRoot(s, mn);
    IsNear(m, mn, R);
    DistinctNear(t, R);
    DistinctFill(s, mn);
    DistinctNear(mn, R);
  }

  lemma PiecesAway(m: Mem, m': Mem, k: Cut, w: set<Elem>)
    requires Pieces(m, k) && Only(m, m', w)
    requires w !! FNodes(k.c) && w !! FNodes(k.s) && w !! Nodes(k.l) && w !! Nodes(k.h)
    ensures Pieces(m', k)
  {
    FIsFrame(m, m', k.c, k.x, w);
    FIsFrame(m, m', k.s, k.y, w);
    IsFrame(m, m', k.l, w);
    IsFrame(m, m', k.h, w);
  }

  /** A write to the node that moves. */
  lemma PiecesMoved(m: Mem, k: Cut, r: Elem, cell: Cell)
    requires Pieces(m, k) == true && Separate(k, r) == true && r in m
    ensures Pieces(m[r := cell], k) == true && m[r := cell].Keys == m.Keys
  {
    PiecesAway(m, m[r := cell], k, {r});
  }

  /** The last node of the spine gets another child. */
  lemma PiecesSpine(m: Mem, k: Cut, r: Elem, v: Elem?)
    requires Pieces(m, k) == true && Separate(k, r) == true && k.s != []
    ensures LastNode(k.s) != null && LastNode(k.s) in m && LastNode(k.s) != r && LastNode(k.s) == k.s[|k.s| - 1].n
    ensures var m' := m[LastNode(k.s) := m[LastNode(k.s)].SetKid(k.s[|k.s| - 1].side, v)];
      Pieces(m', k.(y := v)) == true && m'.Keys == m.Keys
  {
    hide FIs, Is, FDistinct, Distinct, FNodes, Nodes;
    var n := LastNode(k.s);
    LastIn(m, k.s, k.y);
    var m' := m[n := m[n].SetKid(k.s[|k.s| - 1].side, v)];
    RehangAt(m, m', k.s, k.y, v);
    FIsFrame(m, m', k.c, k.x, {n});
    IsFrame(m, m', k.l, {n});
    IsFrame(m, m', k.h, {n});
  }

  /** The last node of the path gets another child. */
  lemma PiecesPath(m: Mem, k: Cut, r: Elem, v: Elem?)
    requires Pieces(m, k) == true && Separate(k, r) == true && k.c != []
    ensures LastNode(k.c) != null && LastNode(k.c) in m && LastNode(k.c) != r
    ensures var m' := m[LastNode(k.c) := m[LastNode(k.c)].SetKid(k.c[|k.c| - 1].side, v)];
      Pieces(m', k.(x := v)) == true && m'.Keys == m.Keys && (r in m ==> m'[r] == m[r])
  {
    hide FIs, Is, FDistinct, Distinct, FNodes, Nodes;
    var n := LastNode(k.c);
    LastIn(m, k.c, k.x);
    var m' := m[n := m[n].SetKid(k.c[|k.c| - 1].side, v)];
    RehangAt(m, m', k.c, k.x, v);
    FIsFrame(m, m', k.s, k.y, {n});
    IsFrame(m, m', k.l, {n});
    IsFrame(m, m', k.h, {n});
  }

  /** The spine has been counted. */
  lemma PiecesCounted(m: Mem, m': Mem, k: Cut, r: Elem, cs: Path)
    requires Pieces(m, k) == true && Separate(k, r) == true && FIs(m', cs, k.y) == true && Only(m, m', FNodes(k.s)) == true && r in m
    ensures Pieces(m', k.(s := cs)) == true && r in m' && m'[r] == m[r]
  {
    FIsFrame(m, m', k.c, k.x, FNodes(k.s));
    IsFrame(m, m', k.l, FNodes(k.s));
    IsFrame(m, m', k.h, FNodes(k.s));
  }

  /** Where the pieces point to, and how they were counted, does not matter for their nodes. */
  lemma SeparateStill(k: Cut, r: Elem, x: Elem?, y: Elem?, d: int)
    requires Separate(k, r)
    ensures Separate(k.(x := x), r) && Separate(k.(y := y), r) && Separate(k.(x := x, y := y), r)
    ensures Separate(k.(s := Counted(k.s, 0, |k.s|, d)), r)
  {
    CountedAlike(k.s, d);
    AlikeRules(k.s, Counted(k.s, 0, |k.s|, d), 0, 0);
  }

  /** The pieces and the moved node make the path to the hole that is left. */
  lemma FitsAgain(m: Mem, c: Path, t: Tree)
    requires t.Node? && t.right.Node?
    requires var (s, mn) := (Spine(t.right), Min(t.right));
      var cs := Counted(s, 0, |s|, -1);
      && Pieces(m, Cut(c, mn.n, cs, mn.right.Root(), t.left, mn.right))
      && mn.n in m && m[mn.n] == Cell(t.left.Root(), Next(cs, 0, mn.right.Root()), t.b, t.z - 1)
    ensures FIs(m, c + Mid(t), Min(t.right).right.Root()) && Is(m, Min(t.right).right)
  {
    hide FIs, Is, Spine, Min, Counted;
    var (s, mn) := (Spine(t.right), Min(t.right));
    var cs := Counted(s, 0, |s|, -1);
    var f := Frame(R, mn.n, t.b, t.z - 1, t.left);
    var hole := mn.right.Root();
    FIsOne(m, f, Head(cs, hole));
    FIsSum(m, [f], cs, hole);
    FIsSum(m, c, [f] + cs, hole);
  }

  /** Frame by frame, what stands where the node was. */
  lemma MidIs(t: Tree)
    requires t.Node? && t.right.Node?
    ensures var s := Spine(t.right);
      && |Mid(t)| == 1 + |s| && Mid(t)[0].n == Min(t.right).n && Mid(t)[0].side == R
      && (forall j :: 0 <= j < |s| ==> Mid(t)[1 + j].n == s[j].n && Mid(t)[1 + j].side == L)
  {
    SpineSides(t.right);
  }

  lemma {:induction false} SpineSides(t: Tree)
    requires t.Node?
    ensures forall j :: 0 <= j < |Spine(t)| ==> Spine(t)[j].side == L
  {
    if t.left.Node? {
      SpineSides(t.left);
    }
  }

  lemma {:induction false} SpineLength(t: Tree)
    requires t.Node?
    ensures |Spine(t)| < H(t)
  {
    if t.left.Node? {
      SpineLength(t.left);
    }
  }

  /** No left child: the node itself is the next one in order. */
  lemma SpineNone(t: Tree)
    requires t.Node? && t.left.Leaf?
    ensures Spine(t) == [] && Min(t) == t
  {
  }

  /** The first node of the spine, and what is below it. */
  lemma SpineMore(t: Tree)
    requires t.Node? && t.left.Node?
    ensures Spine(t) == [Down(t, L)] + Spine(t.left) && Min(t) == Min(t.left)
  {
  }

  lemma NextOnly(t: Tree)
    requires t.Node? && t.right.Node? && t.right.left.Leaf?
    ensures Mid(t) == [Frame(R, t.right.n, t.b, t.z - 1, t.left)] && Min(t.right) == t.right && Spine(t.right) == []
    ensures t.right.Root() == t.right.n
  {
  }

  lemma NextCounted(t: Tree)
    requires t.Node? && t.right.Node? && t.right.left.Node?
    ensures var s := Spine(t.right);
      s != [] && |Counted(s, 0, |s|, -1)| == |s| && t.right.Root() == Next(Counted(s, 0, |s|, -1), 0, Min(t.right).right.Root())
  {
  }

  lemma SpineLast(t: Tree)
    requires t.Node? && t.left.Node?
    ensures Spine(t) != [] && Spine(t)[|Spine(t)| - 1].side == L
  {
    SpineSides(t);
  }

  // ---------------------------------------------------------------- one round of the repair

  /** The cases of the repair, as the source tests them. */
  lemma RestoredIs(f: Frame, t: Tree)
    requires FrameAvl(f, H(t) + 1) && Avl(t)
    ensures var (u, b1) := (Leaning(f, t), Away(f.side));
      && (u.b == b1 ==> Restored(f, t) == (u, true))
      && (u.b != b1 && u.b != b1 + b1 ==> Restored(f, t) == (u, false))
      && (u.b == b1 + b1 ==>
          && u.Node? && u.Near(f.side.Flip()).Node? && u.Near(f.side.Flip()) == f.sib
          && (f.sib.b == -b1 ==> f.sib.Near(f.side).Node? && Restored(f, t) == (Rot2(u, f.side), false))
          && (f.sib.b == 0 ==> Restored(f, t) == (Rot1(u, f.side, -b1, b1), true))
          && (f.sib.b != -b1 && f.sib.b != 0 ==> Restored(f, t) == (Rot1(u, f.side, 0, 0), false)))
  {
    LeaningIs(f, t);
    AwayIs(f.side);
    if Leaning(f, t).b == Away(f.side) + Away(f.side) {
      LeaningTipped(f, t);
      TippedNodes(Leaning(f, t), f.side);
    }
    hide Rot1, Rot2, Leaning, Avl, H, FrameAvl, Tipped;
  }

  /** The last frame becomes the root of a subtree in the hole of the others. */
  lemma LeaningMemory(m: Mem, g: Path, f: Frame, t: Tree)
    requires FIs(m, g + [f], t.Root()) == true && Is(m, t) == true && Apart(g + [f], t) == true
    ensures f.n in m && m[f.n].balance == f.b
    ensures var (u, m') := (Leaning(f, t), m[f.n := m[f.n].(balance := f.b + Away(f.side))]);
      && u.Node? && u.n == f.n && u.b == f.b + Away(f.side) && u.Root() == f.n
      && FIs(m', g, f.n) == true && Is(m', u) == true && Apart(g, u) == true && m'.Keys == m.Keys
  {
    hide FIs, Is, FDistinct, Distinct, FNodes, Nodes;
    var u := Leaning(f, t);
    LeaningIs(f, t);
    FIsSum(m, g, [f], t.Root());
    FIsOne(m, f, t.Root());
    var m' := m[f.n := m[f.n].(balance := f.b + Away(f.side))];
    FDistinctSum(g, [f]);
    FNodesOne(f);
    FIsFrame(m, m', g, f.n, {f.n});
    IsFrame(m, m', t, {f.n});
    IsFrame(m, m', f.sib, {f.n});
    LeaningImage(f, t);
    IsNear(m', u, f.side);
    DistinctNear(u, f.side);
  }

  lemma LeaningImage(f: Frame, t: Tree)
    ensures Leaning(f, t).Node? && Leaning(f, t).Image() == f.Image(t.Root()).(balance := f.b + Away(f.side))
  {
  }

  lemma RestoredApart(g: Path, f: Frame, t: Tree)
    requires Apart(g + [f], t) == true && Apart(g, Leaning(f, t)) == true
    ensures Apart(g, Restored(f, t).0) == true && Nodes(Restored(f, t).0) == Nodes(Leaning(f, t)) && Restored(f, t).0.Node?
  {
    hide FDistinct, Distinct, FNodes, Nodes, Restored, Leaning;
    LeaningSame(f, t);
    RestoredSame(f, t);
  }

  /** One step up, for the shape alone. */
  lemma StepUp(gs: Path, u: Tree)
    requires gs != [] && Short(gs, u) == true
    ensures var (g, f) := (gs[..|gs| - 1], gs[|gs| - 1]);
      var (v, done) := Restored(f, u);
      && FrameAvl(f, H(u) + 1) == true && Avl(u) == true
      && (if done then Avl(Fill(g, v)) == true && Sized(Fill(g, v)) == true else Short(g, v) == true)
      && Inorder(Fill(g, v)) == Inorder(Fill(gs, u)) && Nodes(Fill(g, v)) == Nodes(Fill(gs, u))
  {
    hide *;
    var (g, f) := (gs[..|gs| - 1], gs[|gs| - 1]);
    assert gs == g + [f];
    ShortLast(g, f, u);
    RestoreStep(g, f, u);
    StepSame(g, f, u);
  }

  lemma StepSame(g: Path, f: Frame, u: Tree)
    ensures var v := Restored(f, u).0;
      Inorder(Fill(g, v)) == Inorder(Fill(g + [f], u)) && Nodes(Fill(g, v)) == Nodes(Fill(g + [f], u))
  {
    hide *;
    var v := Restored(f, u).0;
    FillLast(g, f, u);
    RestoredSame(f, u);
    InorderFill(g, v);
    InorderFill(g, f.With(u));
    DistinctFill(g, v);
    DistinctFill(g, f.With(u));
  }

  lemma ShortLast(g: Path, f: Frame, u: Tree)
    requires Short(g + [f], u)
    ensures FrameAvl(f, H(u) + 1) && Avl(u)
  {
    FSumRules(g, [f], H(u) + 1, Count(u));
    FOneRules(f, H(u) + 1, Count(u));
  }

  /** The sequence without the element at rank `c`. */
  ghost function Without(s: seq<Elem>, c: nat): seq<Elem>
    requires 1 <= c <= |s|
  {
    s[..c - 1] + s[c..]
  }

  lemma WithoutIs(s: seq<Elem>, a: seq<Elem>, x: Elem, b: seq<Elem>)
    requires s == a + [x] + b
    ensures |a| + 1 <= |s| && Without(s, |a| + 1) == a + b && s[|a|] == x
  {
    assert s[..|a|] == a && s[|a| + 1..] == b;
  }

  /** The shape after a removal is sound, with exactly the root of `t` gone. */
  lemma RemoveSound(shape: Tree, fs: Path, t: Tree)
    requires Sound(shape) && Fill(fs, t) == shape && t.Node?
    ensures var (gs, u) := Removed(fs, t);
      var c := |Before(fs)| + Count(t.left) + 1;
      && Short(gs, u) && c <= |Inorder(shape)| && Inorder(shape)[c - 1] == t.n && Inorder(Fill(gs, u)) == Without(Inorder(shape), c)
      && Nodes(Fill(gs, u)) == Nodes(shape) - {t.n} && Apart(gs, u) && t.n in Nodes(shape)
  {
    hide *;
    FillParts(shape, fs, t);
    SoundParts(shape);
    RemovedShort(fs, t);
    RemovedSame(fs, t);
    var gs, u := Removed(fs, t).0, Removed(fs, t).1;
    DistinctFill(gs, u);
    ApartIs(gs, u);
    DistinctNear(t, L);
    RemovedSequence(shape, fs, t);
  }

  lemma SoundParts(t: Tree)
    requires Sound(t)
    ensures Avl(t) && Sized(t) && Distinct(t)
  {
  }

  lemma RemovedSequence(shape: Tree, fs: Path, t: Tree)
    requires t.Node? && Inorder(shape) == Before(fs) + Inorder(t) + After(fs)
    ensures var c := |Before(fs)| + Count(t.left) + 1;
      && c <= |Inorder(shape)| && Inorder(shape)[c - 1] == t.n
      && Before(fs) + (Inorder(t.left) + Inorder(t.right)) + After(fs) == Without(Inorder(shape), c)
  {
    hide *;
    InorderNode(t);
    CountInorder(t.left);
    DropOne(Inorder(shape), Before(fs), Inorder(t.left), t.n, Inorder(t.right), After(fs));
  }

  lemma DropOne(s: seq<Elem>, a: seq<Elem>, l: seq<Elem>, x: Elem, r: seq<Elem>, b: seq<Elem>)
    requires s == a + (l + [x] + r) + b
    ensures |a| + |l| + 1 <= |s| && s[|a| + |l|] == x && a + (l + r) + b == Without(s, |a| + |l| + 1)
  {
    hide Without;
    Wrap(a, l, [x], r, b);
    WithoutIs(s, a + l, x, r + b);
    assert a + (l + r) + b == (a + l) + (r + b);
  }

  /** The repaired tree is sound. */
  lemma RemovedSound(shape: Tree, top: Tree, c: nat)
    requires Sound(shape) && 1 <= c <= |Inorder(shape)| && Inorder(top) == Without(Inorder(shape), c)
    requires Avl(top) && Sized(top) && Distinct(top)
    ensures Sound(top)
  {
    hide Avl, Sized, Distinct, Inorder, Count;
    CountInorder(shape);
    CountInorder(top);
    var s := Inorder(shape);
    assert s == s[..c - 1] + [s[c - 1]] + s[c..];
    AscendingWithout(s[..c - 1], s[c - 1], s[c..]);
  }
}
