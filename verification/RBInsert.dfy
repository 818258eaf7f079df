/**
 The steps of `hev_rbtree_insert_color` on shapes and memories.  The focus `t` is the red
 subtree under repair and `c` is what lies above it.
 */
module RBInsert {
  import opened RBShape
  import opened RBRotate
  import opened Sequences
  import opened Sides

  /** A red node under a red parent: the parent has a black parent of its own. */
  ghost predicate RedRed<T>(c: Ctx<T>) {
    c.Up? && c.red && c.up.Up? && !c.up.red
  }

  /** Case 1: the uncle is red too; the colours flip and the trouble moves two levels up. */
  ghost function Flipped<T>(c: Ctx<T>, t: Tree<T>): Tree<T>
    requires RedRed(c)
  {
    Mk(c.up.side, c.up.n, true, Mk(c.side, c.n, false, t, c.sib), c.up.sib.Paint(false))
  }

  /** Case 3, and case 2 followed by case 3 when the focus is the inner grandchild. */
  ghost function Rotated<T>(c: Ctx<T>, t: Tree<T>): Tree<T>
    requires RedRed(c) && t.Node?
  {
    var (s, g, p) := (c.up.side, c.up.n, c.n);
    if c.side == s then
      Mk(s, p, false, t, Mk(s, g, true, c.sib, c.up.sib))
    else
      Straightened(s, g, true, p, true, t.n, false, c.sib, Near(s, t), Near(s.Flip(), t), c.up.sib)
  }

  ghost function Near<T>(s: Side, t: Tree<T>): Tree<T>
    requires t.Node?
  {
    if s == L then t.left else t.right
  }

  lemma InsertContext<T>(c: Ctx<T>, t: Tree<T>, h: nat)
    requires CRb(c, h) && c.Up? && c.red
    ensures RedRed(c)
  {
  }

  lemma FlippedRb<T>(c: Ctx<T>, t: Tree<T>, h: nat)
    requires RedRed(c) && CRb(c, h) && Rb(t, h) && t.IsRed() && c.up.sib.IsRed()
    ensures CRb(c.up.up, h + 1) && Rb(Flipped(c, t), h + 1) && Flipped(c, t).IsRed()
    ensures InCtx(c, Inorder(t)) == InCtx(c.up.up, Inorder(Flipped(c, t)))
  {
    var p := Mk(c.side, c.n, false, t, c.sib);
    RbMk(c.side, c.n, false, t, c.sib, h + 1);
    RbMk(c.up.side, c.up.n, true, p, c.up.sib.Paint(false), h + 1);
    InorderMk(c.side, c.n, false, t, c.sib);
    InorderMk(c.up.side, c.up.n, true, p, c.up.sib.Paint(false));
  }

  lemma RotatedRb<T>(c: Ctx<T>, t: Tree<T>, h: nat)
    requires RedRed(c) && CRb(c, h) && Rb(t, h) && t.IsRed() && !c.up.sib.IsRed()
    ensures CRb(c.up.up, h + 1) && Rb(Rotated(c, t), h + 1) && !Rotated(c, t).IsRed()
  {
    var (s, g, p) := (c.up.side, c.up.n, c.n);
    if c.side == s {
      RbMk(s, g, true, c.sib, c.up.sib, h);
      RbMk(s, p, false, t, Mk(s, g, true, c.sib, c.up.sib), h + 1);
    } else {
      var (a, b) := (Near(s, t), Near(s.Flip(), t));
      RbMk(s, p, true, c.sib, a, h);
      RbMk(s, g, true, b, c.up.sib, h);
      RbMk(s, t.n, false, Mk(s, p, true, c.sib, a), Mk(s, g, true, b, c.up.sib), h + 1);
    }
  }

  lemma RotatedInorder<T>(c: Ctx<T>, t: Tree<T>)
    requires RedRed(c) && t.IsRed()
    ensures InCtx(c, Inorder(t)) == InCtx(c.up.up, Inorder(Rotated(c, t)))
  {
    var (s, g, p) := (c.up.side, c.up.n, c.n);
    if c.side == s {
      RotateTreeInorder(s, g, false, p, true, true, false, t, c.sib, c.up.sib);
      InorderMk(s, p, true, t, c.sib);
      InorderMk(s, g, false, Mk(s, p, true, t, c.sib), c.up.sib);
    } else {
      var (a, b) := (Near(s, t), Near(s.Flip(), t));
      DoubleTreeInorder(s, g, false, p, true, t.n, true, true, true, false, c.sib, a, b, c.up.sib);
      InorderMk(s, t.n, true, a, b);
      InorderMk(s, p, true, c.sib, Mk(s, t.n, true, a, b));
      InorderMk(s, g, false, Mk(s, p, true, c.sib, Mk(s, t.n, true, a, b)), c.up.sib);
      assert t == Mk(s, t.n, true, a, b);
    }
  }

  // ---------------------------------------------------------------- memory

  lemma FlippedIs<T>(m: Mem<T>, m': Mem<T>, c: Ctx<T>, t: Tree<T>, root: RBNode?<T>)
    requires RedRed(c) && c.up.sib.Node? && t.Node?
    requires CIs(m, c, t.n, root) && Is(m, t, t.n, c.n)
    requires CDistinct(c) && Distinct(t) && Nodes(t) !! CNodes(c)
    requires c.n in m && c.up.n in m && c.up.sib.n in m
    requires m' == m[c.up.sib.n := m[c.up.sib.n].(parent := c.up.n, red := false)]
                    [c.n := m[c.n].(parent := c.up.n, red := false)][c.up.n := m[c.up.n].(red := true)]
    ensures CIs(m', c.up.up, c.up.n, root) && Is(m', Flipped(c, t), c.up.n, c.up.up.Head())
  {
    var (g, p, u) := (c.up.n, c.n, c.up.sib);
    var w := {g, p, u.n};
    assert Changes(m, m', w);
    assert CIs(m', c.up.up, g, root) by { CIsFrame(m, m', c.up.up, g, root, w); }
    assert Is(m', t, t.n, p) by { IsFrame(m, m', t, t.n, p, w); }
    assert Is(m', c.sib, m[p].Kid(c.side.Flip()), p) by { IsFrame(m, m', c.sib, m[p].Kid(c.side.Flip()), p, w); }
    assert Is(m', u.Paint(false), u.n, g) by { IsMoved(m, m', u, m[g].Kid(c.up.side.Flip()), g, g, false, w); }
    assert Is(m', Mk(c.side, p, false, t, c.sib), p, g) by { IsMk(m', c.side, p, false, t, c.sib, p, g); }
    IsMk(m', c.up.side, g, true, Mk(c.side, p, false, t, c.sib), u.Paint(false), g, c.up.up.Head());
  }

  lemma AboveApart<T>(up: Ctx<T>, w: set<RBNode<T>>)
    requires CDistinct(up) && CNodes(up) * w <= if up.Up? then {up.n} else {}
    ensures up.Up? ==> Nodes(up.sib) !! w && CNodes(up.up) !! w
  {
    if up.Up? {
      assert forall n <- Nodes(up.sib) + CNodes(up.up) :: n in CNodes(up) && n != up.n;
    }
  }

  lemma KidsApart<T>(t: Tree<T>, w: set<RBNode<T>>)
    requires Distinct(t) && Nodes(t) * w <= if t.Node? then {t.n} else {}
    ensures t.Node? ==> Nodes(t.left) !! w && Nodes(t.right) !! w
  {
    if t.Node? {
      assert forall n <- Nodes(t.left) + Nodes(t.right) :: n in Nodes(t) && n != t.n;
    }
  }

  /** The writes of case 3: `p`, on side `s` of `g`, takes the place of `g` under `up`. */
  ghost predicate TurnedOuter<T>(m: Mem<T>, m': Mem<T>, p: RBNode<T>, g: RBNode<T>, s: Side, up: Ctx<T>) {
    {p, g} <= m.Keys * m'.Keys &&
    var y := m[p].Kid(s.Flip());
    && m'[p] == m[p].SetKid(s.Flip(), g).(parent := m[g].parent, red := m[g].red)
    && m'[g] == m[g].SetKid(s, y).(parent := p, red := true)
    && (y != null ==> y in m && y in m' && m'[y] == m[y].(parent := g, red := false))
    && (up.Up? ==> up.n in m && up.n in m' && m'[up.n] == m[up.n].SetKid(up.side, p))
    && Changes(m, m', {p, g} + Opt(y) + Opt(up.Head()))
  }

  lemma RotatedOuterIs<T>(m: Mem<T>, m': Mem<T>, c: Ctx<T>, t: Tree<T>, root: RBNode?<T>, root': RBNode?<T>)
    requires RedRed(c) && c.side == c.up.side && t.Node? && !c.sib.IsRed()
    requires CIs(m, c, t.n, root) && Is(m, t, t.n, c.n)
    requires CDistinct(c) && Distinct(t) && Nodes(t) !! CNodes(c)
    requires TurnedOuter(m, m', c.n, c.up.n, c.side, c.up.up)
    requires root' == if c.up.up.Top? then c.n else root
    ensures CIs(m', c.up.up, c.n, root') && Is(m', Rotated(c, t), c.n, c.up.up.Head())
  {
    var (s, g, p, up) := (c.side, c.up.n, c.n, c.up.up);
    var w := {p, g} + Opt(c.sib.Root()) + Opt(up.Head());
    assert m[p].Kid(s.Flip()) == c.sib.Root();
    assert CIs(m', up, p, root') by {
      AboveApart(up, w);
      CIsChangeChild(m, m', up, g, root, p, root', w);
    }
    assert Is(m, Mk(s, g, false, Mk(s, p, true, t, c.sib), c.up.sib), g, up.Head()) by {
      IsMk(m, s, p, true, t, c.sib, p, g);
      IsMk(m, s, g, false, Mk(s, p, true, t, c.sib), c.up.sib, g, up.Head());
    }
    KidsApart(c.sib, w);
    KidsApart(t, w);
    RotateIs(m, m', s, g, false, p, true, true, t, t.red, c.sib, false, c.up.sib, up.Head(), w);
    assert t.Paint(t.red) == t && c.sib.Paint(false) == c.sib;
  }

  /** The writes of cases 2 and 3: `n`, the inner child of `p`, takes the place of `g` under `up`. */
  ghost predicate TurnedInner<T>(m: Mem<T>, m': Mem<T>, n: RBNode<T>, p: RBNode<T>, g: RBNode<T>, s: Side, up: Ctx<T>) {
    {n, p, g} <= m.Keys * m'.Keys &&
    var (a, b) := (m[n].Kid(s), m[n].Kid(s.Flip()));
    && m'[n] == MkCell(s, m[g].parent, m[g].red, p, g)
    && m'[p] == m[p].SetKid(s.Flip(), a).(parent := n, red := true)
    && m'[g] == m[g].SetKid(s, b).(parent := n, red := true)
    && (a != null ==> a in m && a in m' && m'[a] == m[a].(parent := p, red := false))
    && (b != null ==> b in m && b in m' && m'[b] == m[b].(parent := g, red := false))
    && (up.Up? ==> up.n in m && up.n in m' && m'[up.n] == m[up.n].SetKid(up.side, n))
    && Changes(m, m', {n, p, g} + Opt(a) + Opt(b) + Opt(up.Head()))
  }

  ghost function InnerWritten<T>(c: Ctx<T>, t: Tree<T>): set<RBNode<T>>
    requires RedRed(c) && t.Node?
  {
    {t.n, c.n, c.up.n} + Opt(t.left.Root()) + Opt(t.right.Root()) + Opt(c.up.up.Head())
  }

  lemma InnerApart<T>(c: Ctx<T>, t: Tree<T>)
    requires RedRed(c) && t.Node?
    requires CDistinct(c) && Distinct(t) && Nodes(t) !! CNodes(c)
    ensures var w := InnerWritten(c, t);
      && Nodes(c.sib) !! w && Nodes(c.up.sib) !! w
      && (c.up.up.Up? ==> Nodes(c.up.up.sib) !! w && CNodes(c.up.up.up) !! w)
      && (t.left.Node? ==> Nodes(t.left.left) !! w && Nodes(t.left.right) !! w)
      && (t.right.Node? ==> Nodes(t.right.left) !! w && Nodes(t.right.right) !! w)
  {
    var w := InnerWritten(c, t);
    AboveApart(c.up.up, w);
    KidsApart(t.left, w);
    KidsApart(t.right, w);
  }

  lemma RotatedInnerIs<T>(m: Mem<T>, m': Mem<T>, c: Ctx<T>, t: Tree<T>, root: RBNode?<T>, root': RBNode?<T>)
    requires RedRed(c) && c.side != c.up.side && t.Node? && !t.left.IsRed() && !t.right.IsRed()
    requires CIs(m, c, t.n, root) && Is(m, t, t.n, c.n)
    requires CDistinct(c) && Distinct(t) && Nodes(t) !! CNodes(c)
    requires TurnedInner(m, m', t.n, c.n, c.up.n, c.up.side, c.up.up)
    requires root' == if c.up.up.Top? then t.n else root
    ensures CIs(m', c.up.up, t.n, root') && Is(m', Rotated(c, t), t.n, c.up.up.Head())
  {
    var (s, g, p, n, up) := (c.up.side, c.up.n, c.n, t.n, c.up.up);
    var (a, b) := (Near(s, t), Near(c.side, t));
    var w := InnerWritten(c, t);
    InnerApart(c, t);
    assert {m[n].left, m[n].right} == {a.Root(), b.Root()} && m[n].Kid(s) == a.Root();
    assert CIs(m', up, n, root') by { CIsChangeChild(m, m', up, g, root, n, root', w); }
    assert Is(m, a, m[n].Kid(s), n) && Is(m, b, m[n].Kid(s.Flip()), n);
    DoubleIs(m, m', s, g, p, n, false, true, true, c.sib, a, false, b, false, c.up.sib, up.Head(), w);
    assert a.Paint(false) == a && b.Paint(false) == b;
  }

  /** `was` is the child of `parent` that the hole of `up` stands for, and only that one. */
  ghost predicate HangsAt<T>(m: Mem<T>, was: RBNode<T>, parent: RBNode?<T>, up: Ctx<T>) {
    && parent == up.Head()
    && (up.Up? ==> up.n in m && m[up.n].Kid(up.side) == was && m[up.n].Kid(up.side.Flip()) != was)
  }

  lemma StillHangsAt<T>(m: Mem<T>, m': Mem<T>, was: RBNode<T>, up: Ctx<T>)
    requires was in m && HangsAt(m, was, m[was].parent, up)
    requires was in m' && m'[was].parent == m[was].parent && (up.Up? ==> up.n in m' && m'[up.n] == m[up.n])
    ensures HangsAt(m', was, m'[was].parent, up)
  {
  }

  ghost predicate Loose<T>(m: Mem<T>, n: RBNode?<T>, s: set<RBNode<T>>) {
    n != null ==> n in m && n !in s
  }

  ghost function MPaint<T>(m: Mem<T>, n: RBNode?<T>, par: RBNode<T>): (m': Mem<T>)
    requires n != null ==> n in m
    ensures m'.Keys == m.Keys
  {
    if n == null then m else MSetPC(m, n, par, false)
  }

  ghost function Case2Mem<T>(m: Mem<T>, node: RBNode<T>, parent: RBNode<T>, s: Side): (m': Mem<T>)
    requires node in m && parent in m && (m[node].Kid(s) != null ==> m[node].Kid(s) in m)
    ensures m'.Keys == m.Keys
  {
    var tmp := m[node].Kid(s);
    MSetPC(MPaint(MSetKid(MSetKid(m, parent, s.Flip(), tmp), node, s, parent), tmp, parent), parent, node, true)
  }

  ghost function MRotateSetParents<T>(m: Mem<T>, was: RBNode<T>, now: RBNode<T>, red: bool, up: Ctx<T>): (m': Mem<T>)
    requires was in m && now in m && (up.Up? ==> up.n in m)
    ensures m'.Keys == m.Keys
  {
    MChangeChild(MSetPC(MSetPC(m, now, m[was].parent, m[was].red), was, now, red), up, now)
  }

  ghost function Case3Mem<T>(m: Mem<T>, parent: RBNode<T>, gparent: RBNode<T>, tmp: RBNode?<T>, s: Side, up: Ctx<T>): (m': Mem<T>)
    requires parent in m && gparent in m && (up.Up? ==> up.n in m) && (tmp != null ==> tmp in m)
    ensures m'.Keys == m.Keys
  {
    MRotateSetParents(MPaint(MSetKid(MSetKid(m, gparent, s, tmp), parent, s.Flip(), gparent), tmp, gparent),
                      gparent, parent, true, up)
  }

  lemma Case3Turns<T>(m: Mem<T>, p: RBNode<T>, g: RBNode<T>, s: Side, up: Ctx<T>)
    requires p in m && g in m && p != g && (up.Up? ==> up.n in m && up.n !in {p, g})
    requires var y := m[p].Kid(s.Flip()); y != null ==> y in m && y !in {p, g} + Opt(up.Head())
    ensures TurnedOuter(m, Case3Mem(m, p, g, m[p].Kid(s.Flip()), s, up), p, g, s, up)
  {
  }

  lemma Case23Turns<T>(m: Mem<T>, n: RBNode<T>, p: RBNode<T>, g: RBNode<T>, s: Side, up: Ctx<T>)
    requires {n, p, g} <= m.Keys && n != p && n != g && p != g && (up.Up? ==> up.n in m && up.n !in {n, p, g})
    requires var (a, b) := (m[n].Kid(s), m[n].Kid(s.Flip()));
      && (a != null ==> a in m && a !in {n, p, g} + Opt(up.Head()) && a != b)
      && (b != null ==> b in m && b !in {n, p, g} + Opt(up.Head()))
    ensures TurnedInner(m, Case3Mem(Case2Mem(m, n, p, s), n, g, m[n].Kid(s.Flip()), s, up), n, p, g, s, up)
  {
  }

  lemma RootIn<T>(m: Mem<T>, t: Tree<T>, p: RBNode?<T>, par: RBNode?<T>)
    requires Is(m, t, p, par)
    ensures p == t.Root() && (t.Node? ==> t.n in m && t.n in Nodes(t) && m[t.n].parent == par && m[t.n].red == t.red)
  {
  }

  /** Where the pointers of the focus, its parent and its grandparent lead. */
  ghost predicate Pointers<T>(m: Mem<T>, c: Ctx<T>, t: Tree<T>)
    requires RedRed(c) && t.Node?
  {
    && {t.n, c.n, c.up.n} <= m.Keys && t.n != c.n && t.n != c.up.n && c.n != c.up.n
    && m[t.n].parent == c.n && m[c.n].parent == c.up.n && m[c.up.n].red == false
    && m[c.n].Kid(c.side) == t.n && m[c.n].Kid(c.side.Flip()) == c.sib.Root() != t.n
    && m[c.up.n].Kid(c.up.side) == c.n && m[c.up.n].Kid(c.up.side.Flip()) == c.up.sib.Root() != c.n
    && HangsAt(m, c.up.n, m[c.up.n].parent, c.up.up)
    && (c.up.up.Up? ==> c.up.up.n !in {t.n, c.n, c.up.n})
    && Loose(m, c.sib.Root(), {c.n, c.up.n, t.n} + Opt(c.up.up.Head()))
    && m[t.n].left == t.left.Root() && m[t.n].right == t.right.Root()
    && Loose(m, t.left.Root(), {t.n, c.n, c.up.n} + Opt(c.up.up.Head()))
    && Loose(m, t.right.Root(), {t.n, c.n, c.up.n} + Opt(c.up.up.Head()))
    && (t.left.Node? ==> t.left.Root() != t.right.Root())
  }

  lemma UnclePointers<T>(m: Mem<T>, c: Ctx<T>, t: Tree<T>, root: RBNode?<T>)
    requires RedRed(c) && CIs(m, c, t.Root(), root) && CDistinct(c) && c.up.sib.Node? && t.Node? && Nodes(t) !! CNodes(c)
    ensures var (g, u) := (c.up.n, c.up.sib.n);
      g in m && m[g].Kid(c.up.side.Flip()) == u && u in m && m[u].red == c.up.sib.red && m[u].parent == g && u !in {c.n, g, t.n}
  {
    assert CIs(m, c.up, c.n, root) && c.up.sib.n in Nodes(c.up.sib) && t.n in Nodes(t);
    assert CNodes(c.up) <= CNodes(c);
    RootIn(m, c.up.sib, m[c.up.n].Kid(c.up.side.Flip()), c.up.n);
  }

  lemma AncestorPointers<T>(m: Mem<T>, c: Ctx<T>, child: RBNode?<T>, root: RBNode?<T>)
    requires RedRed(c) && CIs(m, c, child, root) && CDistinct(c)
    ensures {c.n, c.up.n} <= m.Keys && c.n != c.up.n && m[c.n].parent == c.up.n && m[c.up.n].red == false
    ensures m[c.n].Kid(c.side) == child && m[c.n].Kid(c.side.Flip()) == c.sib.Root()
    ensures m[c.up.n].Kid(c.up.side) == c.n && m[c.up.n].Kid(c.up.side.Flip()) == c.up.sib.Root() != c.n
    ensures HangsAt(m, c.up.n, m[c.up.n].parent, c.up.up)
    ensures c.up.up.Up? ==> c.up.up.n !in {c.n, c.up.n}
    ensures Loose(m, c.sib.Root(), {c.n, c.up.n} + Opt(c.up.up.Head()))
  {
    assert CIs(m, c.up, c.n, root) && CIs(m, c.up.up, c.up.n, root);
    assert CNodes(c.up.up) <= CNodes(c.up) <= CNodes(c) && CDistinct(c.up);
    RootIn(m, c.sib, m[c.n].Kid(c.side.Flip()), c.n);
    RootIn(m, c.up.sib, m[c.up.n].Kid(c.up.side.Flip()), c.up.n);
    if c.up.up.Up? {
      RootIn(m, c.up.up.sib, m[c.up.up.n].Kid(c.up.up.side.Flip()), c.up.up.n);
    }
  }

  lemma InsertPointers<T>(m: Mem<T>, c: Ctx<T>, t: Tree<T>, root: RBNode?<T>)
    requires RedRed(c) && t.Node? && CIs(m, c, t.n, root) && Is(m, t, t.n, c.n)
    requires CDistinct(c) && Distinct(t) && Nodes(t) !! CNodes(c)
    ensures Pointers(m, c, t)
  {
    AncestorPointers(m, c, t.n, root);
    assert {c.n, c.up.n} + Opt(c.up.up.Head()) + Nodes(c.sib) <= CNodes(c) by {
      assert CNodes(c.up.up) <= CNodes(c.up) <= CNodes(c);
    }
    RootIn(m, t, t.n, c.n);
    RootIn(m, c.sib, m[c.n].Kid(c.side.Flip()), c.n);
    RootIn(m, t.left, m[t.n].left, t.n);
    RootIn(m, t.right, m[t.n].right, t.n);
  }

  lemma Case2Keeps<T>(m: Mem<T>, c: Ctx<T>, t: Tree<T>)
    requires RedRed(c) && t.Node? && Pointers(m, c, t) && c.side != c.up.side
    ensures var (n, p, g, s) := (t.n, c.n, c.up.n, c.up.side);
      var m' := Case2Mem(m, n, p, s);
      && m'[g] == m[g] && HangsAt(m', g, m'[g].parent, c.up.up)
      && m'[n].Kid(s.Flip()) == m[n].Kid(s.Flip()) && Loose(m', m[n].Kid(s.Flip()), {n, g} + Opt(c.up.up.Head()))
  {
  }

  /** What the loop of insert_color reads on its way up, when the parent is red. */
  lemma InsertReads<T>(m: Mem<T>, c: Ctx<T>, t: Tree<T>, h: nat, root: RBNode?<T>)
    requires t.IsRed() && CIs(m, c, t.n, root) && Is(m, t, t.n, c.Head()) && NoDup(InCtx(c, Inorder(t)))
    requires CRb(c, h) && Rb(t, h) && c.Up? && m[c.n].red
    ensures RedRed(c) && m[c.n].parent == c.up.n && c.up.n in m
    ensures (m[c.up.n].right == c.n) <==> c.up.side == R
    ensures m[c.up.n].Kid(c.up.side.Flip()) == c.up.sib.Root()
    ensures c.up.sib.Node? ==> c.up.sib.n in m && m[c.up.sib.n].red == c.up.sib.red
    ensures !c.sib.IsRed() && !t.left.IsRed() && !t.right.IsRed()
  {
    InsertContext(c, t, h);
    NoDupSplit(c, t);
    AncestorPointers(m, c, t.n, root);
    if c.up.sib.Node? {
      UnclePointers(m, c, t, root);
    }
  }

  lemma PaintInorder<T>(t: Tree<T>, red: bool)
    ensures Inorder(t.Paint(red)) == Inorder(t) && Nodes(t.Paint(red)) == Nodes(t)
  {
  }

  /** The repaired focus, plugged back, is a red-black tree over the same sequence. */
  lemma Repaired<T>(m: Mem<T>, c: Ctx<T>, t: Tree<T>, h: nat, root: RBNode?<T>)
    requires CIs(m, c, t.Root(), root) && Is(m, t, t.Root(), c.Head()) && CRb(c, h) && Rb(t, h)
    requires t.IsRed() ==> c.Up? && !c.red
    ensures Is(m, Plug(c, t), root, null) && RedBlack(Plug(c, t)) && Inorder(Plug(c, t)) == InCtx(c, Inorder(t))
  {
    IsPlug(m, c, t, t.Root(), root);
    RbPlug(c, t, h);
    InorderPlug(c, t);
  }
}
