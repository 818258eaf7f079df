/**
 The steps of `_hev_rbtree_erase_color` on shapes and memories.  Every path through the
 focus `t` is one black node short; `c` is what lies above it.
 */
module RBErase {
  import opened RBShape
  import opened RBRotate
  import opened RBInsert
  import opened Sequences
  import opened Sides

  /** The focus is black, of black height `h`, where the context wants `h + 1`. */
  ghost predicate Short<T>(c: Ctx<T>, t: Tree<T>, h: nat) {
    c.Up? && Rb(t, h) && !t.IsRed() && CRb(c, h + 1)
  }

  lemma SiblingIsNode<T>(c: Ctx<T>, t: Tree<T>, h: nat)
    requires Short(c, t, h)
    ensures c.sib.Node?
    ensures c.sib.red ==> !c.red && c.sib.left.Node? && !c.sib.left.red && c.sib.right.Node? && !c.sib.right.red
    ensures c.sib.left.IsRed() ==> !c.sib.left.left.IsRed() && !c.sib.left.right.IsRed()
    ensures c.sib.right.IsRed() ==> !c.sib.right.left.IsRed() && !c.sib.right.right.IsRed()
  {
    var k := if c.sib.red then h + 1 else h;
    assert Rb(c.sib.left, k) && Rb(c.sib.right, k);
    assert c.sib.IsRed() ==> Rb(c.sib.left, h + 1) && Rb(c.sib.right, h + 1);
  }

  // ---------------------------------------------------------------- shapes

  /** Case 1: the sibling is red; rotate it above the parent and look at the new sibling. */
  ghost function SiblingRaised<T>(c: Ctx<T>): Ctx<T>
    requires c.Up? && c.sib.Node?
  {
    Up(c.side, c.n, true, Near(c.side, c.sib), Up(c.side, c.sib.n, c.red, Near(c.side.Flip(), c.sib), c.up))
  }

  lemma SiblingRaisedRb<T>(c: Ctx<T>, t: Tree<T>, h: nat)
    requires Short(c, t, h) && c.sib.IsRed()
    ensures Short(SiblingRaised(c), t, h) && !SiblingRaised(c).sib.IsRed()
  {
    SiblingIsNode(c, t, h);
  }

  lemma SiblingRaisedInorder<T>(c: Ctx<T>, t: Tree<T>)
    requires c.Up? && c.sib.Node?
    ensures InCtx(SiblingRaised(c), Inorder(t)) == InCtx(c, Inorder(t))
  {
    var (s, o) := (c.side, c.side.Flip());
    var (near, far) := (Near(s, c.sib), Near(o, c.sib));
    assert Inorder(c.sib) == Beside(o, Inorder(far), c.sib.n, Inorder(near));
    RotateInorder(o, Inorder(far), c.sib.n, Inorder(near), c.n, Inorder(t));
  }

  /** Case 2: the sibling turns red, and the parent black. */
  ghost function SiblingFlipped<T>(c: Ctx<T>, t: Tree<T>): Tree<T>
    requires c.Up? && c.sib.Node?
  {
    Mk(c.side, c.n, false, t, c.sib.Paint(true))
  }

  lemma SiblingFlippedRb<T>(c: Ctx<T>, t: Tree<T>, h: nat)
    requires Short(c, t, h) && c.sib.Node? && !c.sib.red && !c.sib.left.IsRed() && !c.sib.right.IsRed()
    ensures Rb(SiblingFlipped(c, t), h + 1) && !SiblingFlipped(c, t).IsRed()
    ensures c.red ==> CRb(c.up, h + 1)
    ensures !c.red && c.up.Up? ==> Short(c.up, SiblingFlipped(c, t), h + 1)
    ensures InCtx(c.up, Inorder(SiblingFlipped(c, t))) == InCtx(c, Inorder(t))
  {
    RbMk(c.side, c.n, false, t, c.sib.Paint(true), h + 1);
    InorderMk(c.side, c.n, false, t, c.sib.Paint(true));
    PaintInorder(c.sib, true);
  }

  /** Case 4, and case 3 followed by case 4 when only the near nephew is red. */
  ghost function SiblingTurned<T>(c: Ctx<T>, t: Tree<T>): Tree<T>
    requires c.Up? && c.sib.Node? && (Near(c.side.Flip(), c.sib).IsRed() || Near(c.side, c.sib).Node?)
  {
    var (o, near, far) := (c.side.Flip(), Near(c.side, c.sib), Near(c.side.Flip(), c.sib));
    if far.IsRed() then
      Mk(o, c.sib.n, c.red, far.Paint(false), Mk(o, c.n, false, near, t))
    else
      Straightened(o, c.n, false, c.sib.n, false, near.n, c.red, far, Near(o, near), Near(c.side, near), t)
  }

  lemma SiblingTurnedRb<T>(c: Ctx<T>, t: Tree<T>, h: nat)
    requires Short(c, t, h) && c.sib.Node? && !c.sib.red && (c.sib.left.IsRed() || c.sib.right.IsRed())
    ensures var h' := if c.red then h + 1 else h + 2; CRb(c.up, h') && Rb(SiblingTurned(c, t), h')
    ensures SiblingTurned(c, t).IsRed() ==> c.up.Up? && !c.up.red
  {
    var (o, near, far) := (c.side.Flip(), Near(c.side, c.sib), Near(c.side.Flip(), c.sib));
    var h' := if c.red then h + 1 else h + 2;
    assert Rb(far, h) && Rb(near, h);
    if far.IsRed() {
      assert Rb(far.Paint(false), h + 1);
      RbMk(o, c.n, false, near, t, h + 1);
      RbMk(o, c.sib.n, c.red, far.Paint(false), Mk(o, c.n, false, near, t), h');
    } else {
      var (a, b) := (Near(o, near), Near(c.side, near));
      RbMk(o, c.sib.n, false, far, a, h + 1);
      RbMk(o, c.n, false, b, t, h + 1);
      RbMk(o, near.n, c.red, Mk(o, c.sib.n, false, far, a), Mk(o, c.n, false, b, t), h');
    }
  }

  lemma SiblingTurnedInorder<T>(c: Ctx<T>, t: Tree<T>)
    requires c.Up? && c.sib.Node? && (c.sib.left.IsRed() || c.sib.right.IsRed())
    ensures InCtx(c.up, Inorder(SiblingTurned(c, t))) == InCtx(c, Inorder(t))
  {
    var (s, o) := (c.side, c.side.Flip());
    var (near, far) := (Near(s, c.sib), Near(o, c.sib));
    assert c.sib == Mk(o, c.sib.n, c.sib.red, far, near);
    InorderMk(o, c.n, c.red, c.sib, t);
    if far.IsRed() {
      RotateTreeInorder(o, c.n, c.red, c.sib.n, c.sib.red, false, c.red, far, near, t);
      InorderMk(o, c.sib.n, c.red, far, Mk(o, c.n, false, near, t));
      InorderMk(o, c.sib.n, c.red, far.Paint(false), Mk(o, c.n, false, near, t));
      PaintInorder(far, false);
    } else {
      var (a, b) := (Near(o, near), Near(s, near));
      assert near == Mk(o, near.n, near.red, a, b);
      DoubleTreeInorder(o, c.n, c.red, c.sib.n, c.sib.red, near.n, near.red, false, false, c.red, far, a, b, t);
    }
  }

  // ---------------------------------------------------------------- memory

  /** Where the pointers of the parent, the sibling and the nephews lead. */
  ghost predicate ErasePointers<T>(m: Mem<T>, c: Ctx<T>, t: Tree<T>)
    requires c.Up? && c.sib.Node?
  {
    var (p, s, o, w) := (c.n, c.sib.n, c.side.Flip(), {c.n, c.sib.n} + Opt(c.up.Head()));
    && {p, s} <= m.Keys && p != s && m[p].red == c.red && m[p].parent == c.up.Head()
    && m[p].Kid(c.side) == t.Root() && m[p].Kid(o) == s && t.Root() != s
    && m[s].parent == p && m[s].red == c.sib.red
    && m[s].Kid(c.side) == Near(c.side, c.sib).Root() && m[s].Kid(o) == Near(o, c.sib).Root()
    && Loose(m, m[s].left, w) && Loose(m, m[s].right, w) && (m[s].left != null ==> m[s].left != m[s].right)
    && HangsAt(m, p, m[p].parent, c.up) && (c.up.Up? ==> c.up.n !in {p, s})
  }

  ghost predicate Below<T>(m: Mem<T>, c: Ctx<T>, t: Tree<T>, root: RBNode?<T>) {
    && CIs(m, c, t.Root(), root) && Is(m, t, t.Root(), c.Head())
    && CDistinct(c) && Distinct(t) && Nodes(t) !! CNodes(c)
  }

  lemma ErasePointersHold<T>(m: Mem<T>, c: Ctx<T>, t: Tree<T>, root: RBNode?<T>)
    requires Below(m, c, t, root) && c.Up? && c.sib.Node?
    ensures ErasePointers(m, c, t)
    ensures c.sib.left.Node? ==> m[c.sib.left.n].red == c.sib.left.red
    ensures c.sib.right.Node? ==> m[c.sib.right.n].red == c.sib.right.red
  {
    assert Opt(c.up.Head()) <= CNodes(c.up) && Nodes(c.sib.left) + Nodes(c.sib.right) <= Nodes(c.sib);
    RootIn(m, t, t.Root(), c.n);
    RootIn(m, c.sib, m[c.n].Kid(c.side.Flip()), c.n);
    RootIn(m, c.sib.left, m[c.sib.n].left, c.sib.n);
    RootIn(m, c.sib.right, m[c.sib.n].right, c.sib.n);
    if c.up.Up? {
      assert CIs(m, c.up, c.n, root);
      RootIn(m, c.up.sib, m[c.up.n].Kid(c.up.side.Flip()), c.up.n);
    }
  }

  lemma SiblingApart<T>(c: Ctx<T>, t: Tree<T>, w: set<RBNode<T>>)
    requires c.Up? && c.sib.Node? && CDistinct(c) && Distinct(t) && Nodes(t) !! CNodes(c)
    requires w <= {c.n, c.sib.n} + Opt(Near(c.side, c.sib).Root()) + Opt(c.up.Head())
    ensures c.up.Up? ==> Nodes(c.up.sib) !! w && CNodes(c.up.up) !! w
    ensures Nodes(t) !! w && Nodes(Near(c.side.Flip(), c.sib)) !! w
    ensures var near := Near(c.side, c.sib); near.Node? ==> Nodes(near.left) !! w && Nodes(near.right) !! w
  {
    var (o, near, far) := (c.side.Flip(), Near(c.side, c.sib), Near(c.side.Flip(), c.sib));
    assert c.sib == Mk(o, c.sib.n, c.sib.red, far, near);
    DistinctMk(o, c.sib.n, c.sib.red, far, near);
    AboveApart(c.up, w);
    KidsApart(near, w);
  }

  lemma SiblingRaisedIs<T>(m: Mem<T>, m': Mem<T>, c: Ctx<T>, t: Tree<T>, root: RBNode?<T>, root': RBNode?<T>)
    requires Below(m, c, t, root) && c.Up? && c.sib.Node? && !c.red && !Near(c.side, c.sib).IsRed()
    requires TurnedOuter(m, m', c.sib.n, c.n, c.side.Flip(), c.up)
    requires root' == if c.up.Top? then c.sib.n else root
    ensures CIs(m', SiblingRaised(c), t.Root(), root') && Is(m', t, t.Root(), c.n)
  {
    var (s, o, p, q) := (c.side, c.side.Flip(), c.n, c.sib.n);
    var (near, far) := (Near(s, c.sib), Near(o, c.sib));
    var w := {p, q} + Opt(near.Root()) + Opt(c.up.Head());
    assert c.sib == Mk(o, q, c.sib.red, far, near);
    SiblingApart(c, t, w);
    IsMk(m, o, q, c.sib.red, far, near, q, p);
    assert m[q].Kid(s) == near.Root();
    assert CIs(m', c.up, q, root') by {
      CIsChangeChild(m, m', c.up, p, root, q, root', w);
    }
    assert Is(m', t, t.Root(), p) by { IsFrame(m, m', t, t.Root(), p, w); }
    assert Is(m', far, m[q].Kid(o), q) by { IsFrame(m, m', far, m[q].Kid(o), q, w); }
    assert Is(m', near, near.Root(), p) by {
      IsMoved(m, m', near, near.Root(), q, p, false, w);
    }
  }

  lemma SiblingFlippedIs<T>(m: Mem<T>, m': Mem<T>, c: Ctx<T>, t: Tree<T>, root: RBNode?<T>)
    requires Below(m, c, t, root) && c.Up? && c.sib.Node?
    requires {c.n, c.sib.n} <= m.Keys * m'.Keys && Changes(m, m', {c.n, c.sib.n})
    requires m'[c.sib.n] == m[c.sib.n].(parent := c.n, red := true) && m'[c.n] == m[c.n].(red := false)
    ensures CIs(m', c.up, c.n, root) && Is(m', SiblingFlipped(c, t), c.n, c.up.Head())
  {
    var (p, q) := (c.n, c.sib.n);
    var w := {p, q};
    assert CIs(m', c.up, p, root) by { CIsFrame(m, m', c.up, p, root, w); }
    assert Is(m', t, t.Root(), p) by { IsFrame(m, m', t, t.Root(), p, w); }
    assert Is(m', c.sib.Paint(true), q, p) by {
      KidsApart(c.sib, w);
      IsMoved(m, m', c.sib, m[p].Kid(c.side.Flip()), p, p, true, w);
    }
    IsMk(m', c.side, p, false, t, c.sib.Paint(true), p, c.up.Head());
  }

  ghost function MSetParent<T>(m: Mem<T>, n: RBNode?<T>, par: RBNode<T>): (m': Mem<T>)
    requires n != null ==> n in m
    ensures m'.Keys == m.Keys
  {
    if n == null then m else MSetPC(m, n, par, m[n].red)
  }

  /** The writes of case 3, in program order: `n`, on side `s` of the sibling `q`, rises above it. */
  ghost function EraseCase3Mem<T>(m: Mem<T>, p: RBNode<T>, q: RBNode<T>, n: RBNode<T>, s: Side): (m': Mem<T>)
    requires {p, q, n} <= m.Keys && (m[n].Kid(s.Flip()) != null ==> m[n].Kid(s.Flip()) in m)
    ensures m'.Keys == m.Keys
  {
    var tmp1 := m[n].Kid(s.Flip());
    MPaint(MSetKid(MSetKid(MSetKid(m, q, s, tmp1), n, s.Flip(), q), p, s.Flip(), n), tmp1, q)
  }

  /** The writes of case 4, in program order: the sibling `q` takes the place of the parent `p`. */
  ghost function Case4Links<T>(m: Mem<T>, p: RBNode<T>, q: RBNode<T>, tmp1: RBNode<T>, s: Side): (m': Mem<T>)
    requires {p, q, tmp1} <= m.Keys && (m[q].Kid(s) != null ==> m[q].Kid(s) in m)
    ensures m'.Keys == m.Keys
  {
    var tmp2 := m[q].Kid(s);
    MSetParent(MSetPC(MSetKid(MSetKid(m, p, s.Flip(), tmp2), q, s, p), tmp1, q, false), tmp2, p)
  }

  ghost function EraseCase4Mem<T>(m: Mem<T>, p: RBNode<T>, q: RBNode<T>, tmp1: RBNode<T>, s: Side, up: Ctx<T>): (m': Mem<T>)
    requires {p, q, tmp1} <= m.Keys && (m[q].Kid(s) != null ==> m[q].Kid(s) in m) && (up.Up? ==> up.n in m)
    ensures m'.Keys == m.Keys
  {
    MRotateSetParents(Case4Links(m, p, q, tmp1, s), p, q, false, up)
  }

  lemma Case4LinksKeep<T>(m: Mem<T>, p: RBNode<T>, q: RBNode<T>, tmp1: RBNode<T>, s: Side, up: Ctx<T>)
    requires {p, q, tmp1} <= m.Keys && p != q && tmp1 != p && tmp1 != q && Loose(m, m[q].Kid(s), {p, q, tmp1} + Opt(up.Head()))
    requires HangsAt(m, p, m[p].parent, up) && (up.Up? ==> up.n !in {p, q, tmp1})
    ensures var m' := Case4Links(m, p, q, tmp1, s); m'[p].parent == m[p].parent && HangsAt(m', p, m'[p].parent, up)
  {
  }

  ghost predicate TurnedFour<T>(m: Mem<T>, m': Mem<T>, q: RBNode<T>, p: RBNode<T>, s: Side, up: Ctx<T>) {
    {p, q} <= m.Keys * m'.Keys &&
    var (x, y) := (m[q].Kid(s.Flip()), m[q].Kid(s));
    && m'[q] == m[q].SetKid(s, p).(parent := m[p].parent, red := m[p].red)
    && m'[p] == m[p].SetKid(s.Flip(), y).(parent := q, red := false)
    && x != null && x in m && x in m' && m'[x] == m[x].(parent := q, red := false)
    && (y != null ==> y in m && y in m' && m'[y] == m[y].(parent := p))
    && (up.Up? ==> up.n in m && up.n in m' && m'[up.n] == m[up.n].SetKid(up.side, q))
    && Changes(m, m', {p, q} + Opt(x) + Opt(y) + Opt(up.Head()))
  }

  lemma Case4Turns<T>(m: Mem<T>, q: RBNode<T>, p: RBNode<T>, s: Side, up: Ctx<T>)
    requires p in m && q in m && p != q && (up.Up? ==> up.n in m && up.n !in {p, q})
    requires var (x, y, w) := (m[q].Kid(s.Flip()), m[q].Kid(s), {p, q} + Opt(up.Head()));
      x != null && Loose(m, x, w) && Loose(m, y, w) && x != y
    ensures TurnedFour(m, EraseCase4Mem(m, p, q, m[q].Kid(s.Flip()), s, up), q, p, s, up)
  {
  }

  lemma Case3Keeps<T>(m: Mem<T>, p: RBNode<T>, q: RBNode<T>, n: RBNode<T>, s: Side, up: Ctx<T>)
    requires {n, p, q} <= m.Keys && p != q && n != p && n != q && (up.Up? ==> up.n !in {n, p, q})
    requires HangsAt(m, p, m[p].parent, up)
    requires var (a, b, w) := (m[n].Kid(s.Flip()), m[n].Kid(s), {n, p, q} + Opt(up.Head()));
      Loose(m, a, w) && Loose(m, b, w) && (a != null ==> a != b)
    ensures var m' := EraseCase3Mem(m, p, q, n, s);
      HangsAt(m', p, m'[p].parent, up) && Loose(m', m'[n].Kid(s), {n, p, q} + Opt(up.Head()))
  {
  }

  ghost predicate TurnedThree<T>(m: Mem<T>, m': Mem<T>, n: RBNode<T>, q: RBNode<T>, p: RBNode<T>, s: Side, up: Ctx<T>) {
    {n, p, q} <= m.Keys * m'.Keys &&
    var (a, b) := (m[n].Kid(s.Flip()), m[n].Kid(s));
    && m'[n] == MkCell(s.Flip(), m[p].parent, m[p].red, q, p)
    && m'[q] == m[q].SetKid(s, a).(parent := n, red := false)
    && m'[p] == m[p].SetKid(s.Flip(), b).(parent := n, red := false)
    && (a != null ==> a in m && a in m' && m'[a] == m[a].(parent := q, red := false))
    && (b != null ==> b in m && b in m' && m'[b] == m[b].(parent := p))
    && (up.Up? ==> up.n in m && up.n in m' && m'[up.n] == m[up.n].SetKid(up.side, n))
    && Changes(m, m', {n, p, q} + Opt(a) + Opt(b) + Opt(up.Head()))
  }

  lemma Case34Turns<T>(m: Mem<T>, n: RBNode<T>, q: RBNode<T>, p: RBNode<T>, s: Side, up: Ctx<T>)
    requires {n, p, q} <= m.Keys && p != q && n != p && n != q && (up.Up? ==> up.n in m && up.n !in {n, p, q})
    requires var (a, b, w) := (m[n].Kid(s.Flip()), m[n].Kid(s), {n, p, q} + Opt(up.Head()));
      Loose(m, a, w) && Loose(m, b, w) && (a != null ==> a != b)
    ensures TurnedThree(m, EraseCase4Mem(EraseCase3Mem(m, p, q, n, s), p, n, q, s, up), n, q, p, s, up)
  {
  }

  lemma SiblingIs<T>(m: Mem<T>, c: Ctx<T>, child: RBNode?<T>, root: RBNode?<T>)
    requires c.Up? && c.sib.Node? && CIs(m, c, child, root)
    ensures {c.n, c.sib.n} <= m.Keys && Is(m, c.sib, c.sib.n, c.n)
    ensures m[c.n].Kid(c.side.Flip()) == c.sib.n && m[c.n].red == c.red && m[c.n].parent == c.up.Head()
    ensures var (q, near, far) := (c.sib.n, Near(c.side, c.sib), Near(c.side.Flip(), c.sib));
      && c.sib == Mk(c.side.Flip(), q, c.sib.red, far, near)
      && Is(m, near, m[q].Kid(c.side), q) && m[q].Kid(c.side) == near.Root()
      && Is(m, far, m[q].Kid(c.side.Flip()), q) && m[q].Kid(c.side.Flip()) == far.Root()
  {
    var q := c.sib.n;
    RootIn(m, c.sib.left, m[q].left, q);
    RootIn(m, c.sib.right, m[q].right, q);
  }

  lemma TurnedFourIs<T>(m: Mem<T>, m': Mem<T>, c: Ctx<T>, t: Tree<T>, root: RBNode?<T>, root': RBNode?<T>)
    requires Below(m, c, t, root) && c.Up? && c.sib.Node? && Near(c.side.Flip(), c.sib).IsRed()
    requires TurnedFour(m, m', c.sib.n, c.n, c.side, c.up)
    requires root' == if c.up.Top? then c.sib.n else root
    ensures var q := c.sib.n; CIs(m', c.up, q, root') && Is(m', SiblingTurned(c, t), q, c.up.Head())
  {
    var (o, p, q) := (c.side.Flip(), c.n, c.sib.n);
    var (near, far) := (Near(c.side, c.sib), Near(o, c.sib));
    var w := {p, q, far.n} + Opt(near.Root()) + Opt(c.up.Head());
    TurnedApart(c, t, w);
    SiblingIs(m, c, t.Root(), root);
    assert CIs(m', c.up, q, root') by { CIsChangeChild(m, m', c.up, p, root, q, root', w); }
    assert Is(m, Mk(o, p, c.red, Mk(o, q, c.sib.red, far, near), t), p, c.up.Head()) by {
      IsMk(m, o, p, c.red, c.sib, t, p, c.up.Head());
    }
    var nearRed := near.Node? && near.red;
    RotateIs(m, m', o, p, c.red, q, c.sib.red, false, far, false, near, nearRed, t, c.up.Head(), w);
    assert near.Paint(nearRed) == near;
  }

  lemma TurnedApart<T>(c: Ctx<T>, t: Tree<T>, w: set<RBNode<T>>)
    requires c.Up? && c.sib.Node? && CDistinct(c) && Distinct(t) && Nodes(t) !! CNodes(c)
    requires w <= {c.n, c.sib.n} + Opt(c.sib.left.Root()) + Opt(c.sib.right.Root()) + Opt(c.up.Head())
    ensures c.up.Up? ==> Nodes(c.up.sib) !! w && CNodes(c.up.up) !! w
    ensures Nodes(t) !! w
    ensures c.sib.left.Node? ==> Nodes(c.sib.left.left) !! w && Nodes(c.sib.left.right) !! w
    ensures c.sib.right.Node? ==> Nodes(c.sib.right.left) !! w && Nodes(c.sib.right.right) !! w
  {
    AboveApart(c.up, w);
    KidsApart(c.sib.left, w);
    KidsApart(c.sib.right, w);
  }

  lemma ThreeApart<T>(c: Ctx<T>, t: Tree<T>, w: set<RBNode<T>>)
    requires c.Up? && c.sib.Node? && CDistinct(c) && Distinct(t) && Nodes(t) !! CNodes(c) && Near(c.side, c.sib).Node?
    requires var near := Near(c.side, c.sib);
      w <= {c.n, c.sib.n, near.n} + Opt(near.left.Root()) + Opt(near.right.Root()) + Opt(c.up.Head())
    ensures c.up.Up? ==> Nodes(c.up.sib) !! w && CNodes(c.up.up) !! w
    ensures Nodes(t) !! w && Nodes(Near(c.side.Flip(), c.sib)) !! w
    ensures var near := Near(c.side, c.sib);
      && (near.left.Node? ==> Nodes(near.left.left) !! w && Nodes(near.left.right) !! w)
      && (near.right.Node? ==> Nodes(near.right.left) !! w && Nodes(near.right.right) !! w)
  {
    var (o, near, far) := (c.side.Flip(), Near(c.side, c.sib), Near(c.side.Flip(), c.sib));
    DistinctMk(o, c.sib.n, c.sib.red, far, near);
    assert Nodes(near.left) + Nodes(near.right) <= Nodes(near) <= Nodes(c.sib);
    AboveApart(c.up, w);
    KidsApart(near.left, w);
    KidsApart(near.right, w);
  }

  lemma NephewIs<T>(m: Mem<T>, c: Ctx<T>, child: RBNode?<T>, root: RBNode?<T>)
    requires c.Up? && c.sib.Node? && CIs(m, c, child, root) && Near(c.side, c.sib).Node?
    ensures c.sib.n in m && var (q, near, far) := (c.sib.n, Near(c.side, c.sib), Near(c.side.Flip(), c.sib));
      && Is(m, far, m[q].Kid(c.side.Flip()), q) && near.n in m
      && Is(m, near.left, m[near.n].left, near.n) && m[near.n].left == near.left.Root()
      && Is(m, near.right, m[near.n].right, near.n) && m[near.n].right == near.right.Root()
  {
    SiblingIs(m, c, child, root);
    var near := Near(c.side, c.sib);
    RootIn(m, near.left, m[near.n].left, near.n);
    RootIn(m, near.right, m[near.n].right, near.n);
  }

  lemma TurnedThreeIs<T>(m: Mem<T>, m': Mem<T>, c: Ctx<T>, t: Tree<T>, root: RBNode?<T>, root': RBNode?<T>)
    requires Below(m, c, t, root) && c.Up? && c.sib.Node? && !Near(c.side.Flip(), c.sib).IsRed()
    requires var near := Near(c.side, c.sib);
      && near.Node? && !near.left.IsRed() && !near.right.IsRed()
      && TurnedThree(m, m', near.n, c.sib.n, c.n, c.side, c.up)
      && root' == if c.up.Top? then near.n else root
    ensures var n := Near(c.side, c.sib).n; CIs(m', c.up, n, root') && Is(m', SiblingTurned(c, t), n, c.up.Head())
  {
    var (s, o, p, q) := (c.side, c.side.Flip(), c.n, c.sib.n);
    var (near, far) := (Near(s, c.sib), Near(o, c.sib));
    var (n, a, b) := (near.n, Near(o, near), Near(s, near));
    var w := {n, p, q} + Opt(a.Root()) + Opt(b.Root()) + Opt(c.up.Head());
    ThreeApart(c, t, w);
    NephewIs(m, c, t.Root(), root);
    assert CIs(m', c.up, n, root') by { CIsChangeChild(m, m', c.up, p, root, n, root', w); }
    DoubleIs(m, m', o, p, q, n, c.red, false, false, far, a, false, b, false, t, c.up.Head(), w);
    assert a.Paint(false) == a && b.Paint(false) == b;
  }

  /** What the loop of erase_color reads at its parent. */
  lemma EraseReads<T>(m: Mem<T>, c: Ctx<T>, t: Tree<T>, h: nat, root: RBNode?<T>)
    requires Short(c, t, h) && CIs(m, c, t.Root(), root) && Is(m, t, t.Root(), c.Head()) && NoDup(InCtx(c, Inorder(t)))
    ensures c.sib.Node? && Below(m, c, t, root) && ErasePointers(m, c, t)
    ensures c.sib.left.Node? ==> c.sib.left.n in m && m[c.sib.left.n].red == c.sib.left.red
    ensures c.sib.right.Node? ==> c.sib.right.n in m && m[c.sib.right.n].red == c.sib.right.red
    ensures c.sib.red ==> !c.red && c.sib.left.Node? && !c.sib.left.red && c.sib.right.Node? && !c.sib.right.red
    ensures c.sib.left.IsRed() ==> !c.sib.left.left.IsRed() && !c.sib.left.right.IsRed()
    ensures c.sib.right.IsRed() ==> !c.sib.right.left.IsRed() && !c.sib.right.right.IsRed()
    ensures (t.Root() != m[c.n].right) <==> c.side == L
  {
    SiblingIsNode(c, t, h);
    NoDupSplit(c, t);
    ErasePointersHold(m, c, t, root);
  }

  lemma ThreePointers<T>(m: Mem<T>, c: Ctx<T>, t: Tree<T>, root: RBNode?<T>)
    requires Below(m, c, t, root) && c.Up? && c.sib.Node? && Near(c.side, c.sib).Node? && ErasePointers(m, c, t)
    ensures var (n, w) := (Near(c.side, c.sib).n, {Near(c.side, c.sib).n, c.n, c.sib.n} + Opt(c.up.Head()));
      && n in m && n !in {c.n, c.sib.n} + Opt(c.up.Head())
      && Loose(m, m[n].left, w) && Loose(m, m[n].right, w) && (m[n].left != null ==> m[n].left != m[n].right)
  {
    var near := Near(c.side, c.sib);
    NephewIs(m, c, t.Root(), root);
    assert Nodes(near.left) + Nodes(near.right) <= Nodes(near) <= Nodes(c.sib) && Distinct(near);
    assert c.sib.n !in Nodes(near);
    RootIn(m, near.left, m[near.n].left, near.n);
    RootIn(m, near.right, m[near.n].right, near.n);
  }
}
