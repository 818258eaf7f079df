/** What erasing does to the shape: a node is replaced by its successor, and the loss of height is repaired on the way up. */
module KavlErase {
  import opened KavlShape
  import opened KavlRules
  import opened KavlInsert
  import opened Sides

  /** The path from `t` down to its leftmost node. */
  ghost function Spine(t: Tree): Path
    requires t.Node?
  {
    if t.left.Leaf? then [] else [Frame(L, t.n, t.b, t.z, t.right)] + Spine(t.left)
  }

  ghost function Min(t: Tree): (m: Tree)
    requires t.Node?
    ensures m.Node? && m.left.Leaf?
  {
    if t.left.Leaf? then t else Min(t.left)
  }

  lemma {:induction false} SpineFill(t: Tree)
    requires t.Node?
    ensures Fill(Spine(t), Min(t)) == t && Before(Spine(t)) == []
  {
    if t.left.Node? {
      SpineFill(t.left);
      assert Spine(t)[1..] == Spine(t.left);
    }
  }

  /** The frames that stand where `t` was, once its root is replaced by the next node in order. */
  ghost function Mid(t: Tree): Path
    requires t.Node? && t.right.Node?
  {
    var s := Spine(t.right);
    [Frame(R, Min(t.right).n, t.b, t.z - 1, t.left)] + Counted(s, 0, |s|, -1)
  }

  /** The hole that is left, and what hangs in it. */
  ghost function Left(t: Tree): (Path, Tree)
    requires t.Node?
  {
    if t.right.Leaf? then ([], t.left) else (Mid(t), Min(t.right).right)
  }

  /** Every subtree is as its frames say, but for the one in the hole, which has lost one level. */
  ghost predicate Short(fs: Path, t: Tree) {
    FAvl(fs, H(t) + 1) && Avl(t) && FSized(fs, Count(t)) && Sized(t)
  }

  lemma MinRules(t: Tree)
    requires t.Node? && t.left.Leaf?
    ensures Avl(t) ==> H(t) == H(t.right) + 1 && Avl(t.right)
    ensures Count(t) == Count(t.right) + 1 && (Sized(t) ==> Sized(t.right))
    ensures Inorder(t) == [t.n] + Inorder(t.right) && Nodes(t) == {t.n} + Nodes(t.right)
    ensures Distinct(t) ==> Distinct(t.right) && t.n !in Nodes(t.right)
  {
    assert H(Leaf) == 0 && Count(Leaf) == 0 && Nodes(Leaf) == {} && Inorder(Leaf) == [];
    assert [] + [t.n] == [t.n];
  }

  lemma MidShort(t: Tree)
    requires t.Node? && t.right.Node? && Avl(t) && Sized(t)
    ensures Short(Mid(t), Min(t.right).right)
    ensures FH(Mid(t), H(Min(t.right).right) + 1) == H(t) && FCount(Mid(t), Count(Min(t.right).right)) == Count(t) - 1
  {
    hide H, Count, Avl, Sized, FAvl, FSized, FH, FCount, Fill, FrameAvl;
    var (s, m) := (Spine(t.right), Min(t.right));
    NearRules(t, R);
    SpineFill(t.right);
    FillRules(s, m);
    MinRules(m);
    CountedRules(s, Count(m), -1, H(m));
    var cs := Counted(s, 0, |s|, -1);
    AlikeRules(s, cs, H(m), Count(m) - 1);
    var f := Frame(R, m.n, t.b, t.z - 1, t.left);
    FOneRules(f, FH(cs, H(m)), FCount(cs, Count(m) - 1));
    FSumRules([f], cs, H(m), Count(m) - 1);
    MidFrame(t, f, FH(cs, H(m)));
  }

  lemma MidFrame(t: Tree, f: Frame, h: nat)
    requires t.Node? && Avl(t) && f.side == R && f.b == t.b && f.sib == t.left && h == H(t.right)
    ensures FrameAvl(f, h)
  {
  }

  lemma MidSame(t: Tree)
    requires t.Node? && t.right.Node?
    ensures Before(Mid(t)) + Inorder(Min(t.right).right) + After(Mid(t)) == Inorder(t.left) + Inorder(t.right)
    ensures Distinct(t) ==>
      && FNodes(Mid(t)) + Nodes(Min(t.right).right) == Nodes(t) - {t.n}
      && FDistinct(Mid(t)) && Distinct(Min(t.right).right) && FNodes(Mid(t)) !! Nodes(Min(t.right).right)
  {
    hide Inorder, Before, After, FNodes, FDistinct, Nodes, Distinct, Fill;
    var (s, m) := (Spine(t.right), Min(t.right));
    var cs := Counted(s, 0, |s|, -1);
    var f := Frame(R, m.n, t.b, t.z - 1, t.left);
    SpineFill(t.right);
    MinRules(m);
    InorderFill(s, m);
    DistinctFill(s, m);
    AlikeRules(s, cs, 0, 0);
    BeforeOne(f);
    BeforeSum([f], cs);
    FNodesOne(f);
    FDistinctSum([f], cs);
    DistinctNear(t, R);
    MidRegroup(Inorder(t.left), m.n, Inorder(m.right), After(s));
  }

  lemma MidRegroup<T>(a: seq<T>, x: T, b: seq<T>, c: seq<T>)
    ensures a + [x] + [] + b + (c + []) == a + ([] + ([x] + b) + c)
  {
  }

  // ---------------------------------------------------------------- the whole removal

  /** The path after the sizes on it were counted down and `t` lost its root, and the hole that is left. */
  ghost function Removed(fs: Path, t: Tree): (Path, Tree)
    requires t.Node?
  {
    (Counted(fs, 0, |fs|, -1) + Left(t).0, Left(t).1)
  }

  lemma LeftShort(t: Tree)
    requires t.Node? && Avl(t) && Sized(t)
    ensures Short(Left(t).0, Left(t).1)
    ensures FH(Left(t).0, H(Left(t).1) + 1) == H(t) && FCount(Left(t).0, Count(Left(t).1)) == Count(t) - 1
  {
    if t.right.Node? {
      MidShort(t);
    }
  }

  lemma RemovedShort(fs: Path, t: Tree)
    requires t.Node? && Avl(Fill(fs, t)) && Sized(Fill(fs, t))
    ensures Short(Removed(fs, t).0, Removed(fs, t).1)
  {
    hide H, Count, Avl, Sized, FAvl, FSized, FH, FCount, Fill, Left;
    FillRules(fs, t);
    LeftShort(t);
    var (gs, u) := Left(t);
    CountPositive(t);
    CountedRules(fs, Count(t), -1, H(t));
    FSumRules(Counted(fs, 0, |fs|, -1), gs, H(u) + 1, Count(u));
  }

  lemma CountPositive(t: Tree)
    requires t.Node?
    ensures Count(t) > 0
  {
  }

  /** Exactly the root of `t` is gone from the sequence and from the nodes. */
  lemma RemovedSame(fs: Path, t: Tree)
    requires t.Node?
    ensures var (gs, u) := Removed(fs, t);
      && Inorder(Fill(gs, u)) == Before(fs) + (Inorder(t.left) + Inorder(t.right)) + After(fs)
      && (Distinct(Fill(fs, t)) ==> Distinct(Fill(gs, u)) && Nodes(Fill(gs, u)) == Nodes(Fill(fs, t)) - {t.n})
  {
    hide Inorder, Before, After, FNodes, FDistinct, Nodes, Distinct, Fill, Left;
    var (gs, u) := Left(t);
    var cs := Counted(fs, 0, |fs|, -1);
    LeftSame(t);
    AlikeRules(fs, cs, 0, 0);
    InorderFill(cs + gs, u);
    BeforeSum(cs, gs);
    DistinctFill(fs, t);
    DistinctFill(cs + gs, u);
    FDistinctSum(cs, gs);
    DistinctNear(t, L);
    Wrap(Before(cs), Before(gs), Inorder(u), After(gs), After(cs));
  }

  lemma LeftSame(t: Tree)
    requires t.Node?
    ensures var (gs, u) := Left(t);
      && Before(gs) + Inorder(u) + After(gs) == Inorder(t.left) + Inorder(t.right)
      && (Distinct(t) ==>
          && FNodes(gs) + Nodes(u) == Nodes(t) - {t.n} && FDistinct(gs) && Distinct(u) && FNodes(gs) !! Nodes(u))
  {
    if t.right.Node? {
      MidSame(t);
    } else {
      assert Before([]) + Inorder(t.left) + After([]) == Inorder(t.left) + Inorder(Leaf);
    }
  }

  // ---------------------------------------------------------------- the repair

  /** The last frame, told that the subtree on the path got lower. */
  ghost function Leaning(f: Frame, t: Tree): Tree {
    f.Mark(f.b + Away(f.side), f.z).With(t)
  }

  /** One round of the repair at the last frame, and whether the loss ends there. */
  ghost function Restored(f: Frame, t: Tree): (Tree, bool) {
    var (u, b1) := (Leaning(f, t), Away(f.side));
    if u.b == b1 then (u, true)
    else if u.b != b1 + b1 || f.sib.Leaf? then (u, false)
    else if f.sib.b == -b1 && f.sib.Near(f.side).Node? then (Rot2(u, f.side), false)
    else if f.sib.b == 0 then (Rot1(u, f.side, -b1, b1), true)
    else (Rot1(u, f.side, 0, 0), false)
  }

  lemma LeaningIs(f: Frame, t: Tree)
    ensures var u := Leaning(f, t);
      u.Node? && u.n == f.n && u.b == f.b + Away(f.side) && u.z == f.z && u.Near(f.side) == t && u.Near(f.side.Flip()) == f.sib
  {
  }

  /** What the round does to the heights: either the subtree is as high as it was, or it lost one level too. */
  lemma RestoredAvl(f: Frame, t: Tree)
    requires FrameAvl(f, H(t) + 1) && Avl(t)
    ensures var (v, done) := Restored(f, t);
      Avl(v) && H(v) + (if done then 0 else 1) == 1 + Max(H(t) + 1, H(f.sib))
  {
    hide H, Avl, FrameAvl, Leaning, Rot1, Rot2, Tipped;
    var u := Leaning(f, t);
    LeaningIs(f, t);
    LeaningAvl(f, t);
    if u.b == Away(f.side) + Away(f.side) {
      LeaningTipped(f, t);
      TippedNodes(u, f.side);
      if f.sib.b == -Away(f.side) {
        Rot2Lowers(u, f.side);
      } else if f.sib.b == 0 {
        Rot1Stays(u, f.side);
      } else {
        Rot1Lowers(u, f.side);
      }
    }
  }

  /** The heights, when no rotation is needed. */
  lemma LeaningAvl(f: Frame, t: Tree)
    requires FrameAvl(f, H(t) + 1) && Avl(t)
    ensures var (u, b1) := (Leaning(f, t), Away(f.side));
      && (u.b == b1 ==> Avl(u) && H(u) == 1 + Max(H(t) + 1, H(f.sib)))
      && (u.b != b1 && u.b != b1 + b1 ==> Avl(u) && H(u) + 1 == 1 + Max(H(t) + 1, H(f.sib)))
  {
    hide H, Avl, Leaning;
    LeaningIs(f, t);
    NearRules(Leaning(f, t), f.side);
  }

  lemma LeaningTipped(f: Frame, t: Tree)
    requires FrameAvl(f, H(t) + 1) && Avl(t) && f.b == Away(f.side)
    ensures Tipped(Leaning(f, t), f.side) && H(Leaning(f, t)) == 1 + Max(H(t) + 1, H(f.sib))
    ensures f.sib.Node? && -1 <= f.sib.b <= 1
  {
    hide H, Avl, Leaning;
    LeaningIs(f, t);
    NearRules(Leaning(f, t), f.side);
    LeafHeight();
    NearRules(f.sib, L);
  }

  lemma RestoredSame(f: Frame, t: Tree)
    ensures var (u, v) := (f.With(t), Restored(f, t).0);
      && Inorder(v) == Inorder(u) && Nodes(v) == Nodes(u) && (Distinct(u) ==> Distinct(v)) && v.Node?
      && (Sized(u) ==> Sized(v) && Count(v) == Count(u))
  {
    hide Inorder, Nodes, Distinct, Sized, Count, Rot1, Rot2, H, Avl;
    var u := Leaning(f, t);
    LeaningIs(f, t);
    LeaningSame(f, t);
    var b1 := Away(f.side);
    if u.b == b1 || u.b != b1 + b1 || f.sib.Leaf? {
    } else if f.sib.b == -b1 && f.sib.Near(f.side).Node? {
      Rot2Same(u, f.side);
    } else if f.sib.b == 0 {
      Rot1Same(u, f.side, -b1, b1);
    } else {
      Rot1Same(u, f.side, 0, 0);
    }
  }

  lemma LeaningSame(f: Frame, t: Tree)
    ensures var (u, v) := (f.With(t), Leaning(f, t));
      && Inorder(v) == Inorder(u) && Nodes(v) == Nodes(u) && Distinct(u) == Distinct(v)
      && Sized(u) == Sized(v) && Count(v) == Count(u)
  {
  }

  lemma Rot1Same(t: Tree, dir: Side, qb: int, pb: int)
    requires t.Node? && t.Near(dir.Flip()).Node?
    ensures var v := Rot1(t, dir, qb, pb);
      && Inorder(v) == Inorder(t) && Nodes(v) == Nodes(t) && (Distinct(t) ==> Distinct(v)) && v.Node?
      && (Sized(t) ==> Sized(v) && Count(v) == Count(t))
  {
    hide Inorder, Nodes, Distinct, Sized, Count;
    Rot1Inorder(t, dir, qb, pb);
    Rot1Distinct(t, dir, qb, pb);
    if Sized(t) {
      Rot1Sized(t, dir, qb, pb);
    }
  }

  lemma Rot2Same(t: Tree, dir: Side)
    requires t.Node? && t.Near(dir.Flip()).Node? && t.Near(dir.Flip()).Near(dir).Node?
    ensures var v := Rot2(t, dir);
      && Inorder(v) == Inorder(t) && Nodes(v) == Nodes(t) && (Distinct(t) ==> Distinct(v)) && v.Node?
      && (Sized(t) ==> Sized(v) && Count(v) == Count(t))
  {
    hide Inorder, Nodes, Distinct, Sized, Count;
    Rot2Inorder(t, dir);
    Rot2Distinct(t, dir);
    if Sized(t) {
      Rot2Sized(t, dir);
    }
  }

  /** The round moves the loss up by one frame, or ends it. */
  lemma RestoreStep(fs: Path, f: Frame, t: Tree)
    requires Short(fs + [f], t)
    ensures var (v, done) := Restored(f, t); if done then Avl(Fill(fs, v)) && Sized(Fill(fs, v)) else Short(fs, v)
  {
    hide H, Count, Avl, Sized, FAvl, FSized, FH, FCount, Fill, Restored, FrameAvl;
    FSumRules(fs, [f], H(t) + 1, Count(t));
    FOneRules(f, H(t) + 1, Count(t));
    RestoredAvl(f, t);
    RestoredSame(f, t);
    WithRules(f, t);
    var v := Restored(f, t).0;
    FillRules(fs, v);
  }

  /** The node at the root lost a level, or the loss ended before it: the tree is whole again. */
  lemma ShortRoot(t: Tree)
    requires Short([], t)
    ensures Avl(t) && Sized(t)
  {
  }
}
