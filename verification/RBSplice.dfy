/** Taking a node out of the tree: what `_hev_rbtree_erase` does before any repair. */
module RBSplice {
  import opened RBShape
  import opened RBRotate
  import opened RBInsert
  import opened RBErase
  import opened Sequences
  import opened Sides

  /** The leftmost node of `r`, the node above it, and `r` without it. */
  ghost function Min<T>(r: Tree<T>): (s: Tree<T>)
    requires r.Node?
    ensures s.Node? && s.left.Leaf?
  {
    if r.left.Leaf? then r else Min(r.left)
  }

  ghost function AboveMin<T>(r: Tree<T>): RBNode<T>
    requires r.Node? && r.left.Node?
  {
    if r.left.left.Leaf? then r.n else AboveMin(r.left)
  }

  ghost function MinRemoved<T>(r: Tree<T>): Tree<T>
    requires r.Node?
  {
    if r.left.Leaf? then r.right.Paint(false) else Node(MinRemoved(r.left), r.n, r.red, r.right)
  }

  /** The context of the leftmost node of `r`, when `base` is the context of `r`. */
  ghost function MinCtx<T>(base: Ctx<T>, r: Tree<T>): Ctx<T>
    requires r.Node?
    decreases r
  {
    if r.left.Leaf? then base else MinCtx(Up(L, r.n, r.red, r.right, base), r.left)
  }

  lemma {:induction false} MinCtxPlugs<T>(base: Ctx<T>, r: Tree<T>)
    requires r.Node?
    ensures Plug(MinCtx(base, r), Min(r)) == Plug(base, r)
    ensures Plug(MinCtx(base, r), Min(r).right.Paint(false)) == Plug(base, MinRemoved(r))
    decreases r
  {
    if r.left.Node? {
      MinCtxPlugs(Up(L, r.n, r.red, r.right, base), r.left);
    }
  }

  lemma {:induction false} MinInorder<T>(r: Tree<T>)
    requires r.Node?
    ensures Inorder(r) == [Min(r).n] + Inorder(MinRemoved(r))
  {
    if r.left.Leaf? {
      PaintInorder(r.right, false);
    } else {
      MinInorder(r.left);
    }
  }

  lemma {:induction false} MinCtxHead<T>(base: Ctx<T>, r: Tree<T>)
    requires r.Node? && base.Up?
    ensures MinCtx(base, r).Up? && MinCtx(base, r).n == if r.left.Leaf? then base.n else AboveMin(r)
    decreases r
  {
    if r.left.Node? {
      MinCtxHead(Up(L, r.n, r.red, r.right, base), r.left);
    }
  }

  /** Two contexts that agree on colours and black heights serve alike. */
  ghost predicate AsGood<T>(b: Ctx<T>, b': Ctx<T>) {
    b.Up? && b'.Up? && b.red == b'.red && forall k: nat :: CRb(b, k) ==> CRb(b', k)
  }

  lemma {:induction false} MinCtxRb<T>(b: Ctx<T>, b': Ctx<T>, r: Tree<T>)
    requires r.Node? && AsGood(b, b')
    ensures AsGood(MinCtx(b, r), MinCtx(b', r))
    decreases r
  {
    if r.left.Node? {
      MinCtxRb(Up(L, r.n, r.red, r.right, b), Up(L, r.n, r.red, r.right, b'), r.left);
    }
  }

  // ---------------------------------------------------------------- memory

  /** The cells of `r` after its leftmost node was taken out and `par` became its parent. */
  ghost predicate MinGone<T>(m: Mem<T>, m': Mem<T>, r: Tree<T>, par: RBNode<T>, w: set<RBNode<T>>)
    requires r.Node?
  {
    if r.left.Leaf? then
      Moved(m, m', r.right, par, false, w)
    else
      r.n in m && r.n in m' && m'[r.n] == m[r.n].(parent := par, left := MinRemoved(r.left).Root())
      && Nodes(r.right) !! w && MinGone(m, m', r.left, r.n, w)
  }

  lemma {:induction false} MinGoneIs<T>(m: Mem<T>, m': Mem<T>, r: Tree<T>, par: RBNode<T>, par': RBNode<T>, w: set<RBNode<T>>)
    requires r.Node? && Is(m, r, r.n, par) && Changes(m, m', w) && MinGone(m, m', r, par', w)
    ensures Is(m', MinRemoved(r), MinRemoved(r).Root(), par')
  {
    if r.left.Leaf? {
      RootIn(m, r.right, m[r.n].right, r.n);
      IsMoved(m, m', r.right, m[r.n].right, r.n, par', false, w);
    } else {
      MinGoneIs(m, m', r.left, r.n, r.n, w);
      IsFrame(m, m', r.right, m[r.n].right, r.n, w);
    }
  }

  lemma {:induction false} MinParts<T>(r: Tree<T>)
    requires r.Node? && Distinct(r)
    ensures Min(r).n in Nodes(r) && Nodes(Min(r).right) <= Nodes(r) - {Min(r).n} && Distinct(Min(r).right)
    ensures r.left.Node? ==>
      Min(r).n != r.n && r.n !in Nodes(Min(r).right) && AboveMin(r) in Nodes(r)
      && AboveMin(r) != Min(r).n && AboveMin(r) !in Nodes(Min(r).right)
  {
    if r.left.Node? {
      MinParts(r.left);
    }
  }

  /** The node above the leftmost one loses it, and the orphan changes parent. */
  ghost predicate Unlinked<T>(m: Mem<T>, m': Mem<T>, r: Tree<T>, w: set<RBNode<T>>)
    requires r.Node? && r.left.Node?
  {
    var (q, x) := (AboveMin(r), Min(r).right);
    && Changes(m, m', w) && q in m && q in m'
    && (x.Node? ==> x.n in m && x.n in m' && m'[x.n] == m[x.n].(parent := q, red := false))
  }

  lemma {:induction false} MinGoneBelow<T>(m: Mem<T>, m': Mem<T>, r: Tree<T>, par: RBNode<T>, w: set<RBNode<T>>)
    requires r.Node? && r.left.Node? && Is(m, r, r.n, par) && Distinct(r) && Unlinked(m, m', r, w)
    requires Nodes(r) * w <= {AboveMin(r), Min(r).n} + Opt(Min(r).right.Root())
    requires m'[AboveMin(r)] == m[AboveMin(r)].(left := Min(r).right.Root())
    ensures MinGone(m, m', r, par, w)
  {
    MinParts(r.left);
    if r.left.left.Leaf? {
      KidsApart(r.left.right, w);
    } else {
      RootIn(m, r.left, m[r.n].left, r.n);
      MinGoneBelow(m, m', r.left, r.n, w);
    }
  }

  /** The same when the top of `r` gets the parent `par` as well. */
  lemma MinGoneHolds<T>(m: Mem<T>, m': Mem<T>, r: Tree<T>, was: RBNode<T>, par: RBNode<T>, w: set<RBNode<T>>)
    requires r.Node? && r.left.Node? && Is(m, r, r.n, was) && Distinct(r) && Unlinked(m, m', r, w)
    requires Nodes(r) * w <= {r.n, AboveMin(r), Min(r).n} + Opt(Min(r).right.Root())
    requires r.n in m'
    requires var (q, x) := (AboveMin(r), Min(r).right.Root());
      if q == r.n then m'[r.n] == m[r.n].(parent := par, left := x)
      else m'[r.n] == m[r.n].(parent := par) && m'[q] == m[q].(left := x)
    ensures MinGone(m, m', r, par, w)
  {
    MinParts(r.left);
    RootIn(m, r.left, m[r.n].left, r.n);
    if r.left.left.Leaf? {
      KidsApart(r.left.right, w);
    } else {
      MinGoneBelow(m, m', r.left, r.n, w);
    }
  }

  /** The place of the successor, once it stands where the erased node stood. */
  ghost function HoleCtx<T>(c: Ctx<T>, t: Tree<T>): Ctx<T>
    requires t.Node? && t.right.Node?
  {
    MinCtx(Up(R, Min(t.right).n, t.red, t.left, c), t.right)
  }

  lemma ReplacedIs<T>(m: Mem<T>, m': Mem<T>, c: Ctx<T>, t: Tree<T>, root: RBNode?<T>, root': RBNode?<T>, w: set<RBNode<T>>)
    requires t.Node? && t.right.Node? && CIs(m, c, t.n, root) && Is(m, t, t.n, c.Head())
    requires var s := Min(t.right).n;
      && s in m' && m'[s] == Cell(c.Head(), t.red, t.left.Root(), MinRemoved(t.right).Root())
      && Changes(m, m', w) && MinGone(m, m', t.right, s, w) && Moved(m, m', t.left, s, t.left.IsRed(), w)
      && root' == if c.Up? then root else s
    requires c.Up? ==> c.n in m' && m'[c.n] == m[c.n].SetKid(c.side, Min(t.right).n) && Nodes(c.sib) !! w && CNodes(c.up) !! w
    ensures var x := Min(t.right).right.Paint(false); CIs(m', HoleCtx(c, t), x.Root(), root') && Is(m', x, x.Root(), HoleCtx(c, t).Head())
  {
    var (s, r') := (Min(t.right).n, MinRemoved(t.right));
    assert CIs(m', c, s, root') by { CIsChangeChild(m, m', c, t.n, root, s, root', w); }
    assert Is(m', t.left, t.left.Root(), s) by {
      RootIn(m, t.left, m[t.n].left, t.n);
      IsMoved(m, m', t.left, m[t.n].left, t.n, s, t.left.IsRed(), w);
      assert t.left.Paint(t.left.IsRed()) == t.left;
    }
    assert Is(m', r', r'.Root(), s) by {
      RootIn(m, t.right, m[t.n].right, t.n);
      MinGoneIs(m, m', t.right, t.n, s, w);
    }
    IsPlug(m', c, Node(t.left, s, t.red, r'), s, root');
    MinCtxPlugs(Up(R, s, t.red, t.left, c), t.right);
    IsUnplug(m', HoleCtx(c, t), Min(t.right).right.Paint(false), root');
  }

  lemma ErasedSequence<T>(c: Ctx<T>, t: Tree<T>)
    requires t.Node?
    ensures InCtx(c, Inorder(t)) == (Before(c) + Inorder(t.left)) + [t.n] + (Inorder(t.right) + After(c))
    ensures InCtx(c, Inorder(t.left) + Inorder(t.right)) == (Before(c) + Inorder(t.left)) + (Inorder(t.right) + After(c))
  {
    InCtxSplits(c, Inorder(t));
    InCtxSplits(c, Inorder(t.left) + Inorder(t.right));
    Regroup(Before(c), Inorder(t.left), [t.n], Inorder(t.right), After(c));
    Regroup(Before(c), Inorder(t.left), [], Inorder(t.right), After(c));
    assert Inorder(t.left) + [] == Inorder(t.left);
    assert (Before(c) + Inorder(t.left)) + [] == Before(c) + Inorder(t.left);
  }

  lemma SuccessorInorder<T>(t: Tree<T>)
    requires t.Node? && t.right.Node?
    ensures Inorder(Node(t.left, Min(t.right).n, t.red, MinRemoved(t.right))) == Inorder(t.left) + Inorder(t.right)
  {
    var (a, s, b) := (Inorder(t.left), [Min(t.right).n], Inorder(MinRemoved(t.right)));
    MinInorder(t.right);
    assert a + s + b == a + (s + b);
  }

  lemma ReplacedInorder<T>(c: Ctx<T>, t: Tree<T>)
    requires t.Node? && t.right.Node?
    ensures InCtx(HoleCtx(c, t), Inorder(Min(t.right).right.Paint(false))) == InCtx(c, Inorder(t.left) + Inorder(t.right))
  {
    var (s, r') := (Min(t.right).n, MinRemoved(t.right));
    var t' := Node(t.left, s, t.red, r');
    var base := Up(R, s, t.red, t.left, c);
    assert Plug(HoleCtx(c, t), Min(t.right).right.Paint(false)) == Plug(c, t') by { MinCtxPlugs(base, t.right); }
    InorderPlug(HoleCtx(c, t), Min(t.right).right.Paint(false));
    InorderPlug(c, t');
    SuccessorInorder(t);
  }

  lemma ReplacedRb<T>(c: Ctx<T>, t: Tree<T>) returns (h: nat)
    requires t.Node? && t.right.Node? && RedBlack(Plug(c, t))
    ensures var (x, d, st) := (Min(t.right).right, HoleCtx(c, t), Min(t.right));
      if x.Leaf? && !st.red then Short(d, x, h)
      else CRb(d, h) && Rb(x.Paint(false), h)
  {
    var (b, b', st) := (Up(R, t.n, t.red, t.left, c), Up(R, Min(t.right).n, t.red, t.left, c), Min(t.right));
    MinCtxPlugs(b, t.right);
    assert Plug(b, t.right) == Plug(c, t);
    var k := RbUnplug(MinCtx(b, t.right), st);
    MinCtxRb(b, b', t.right);
    assert Rb(st.left, if st.red then k else k - 1);
    h := if st.right.Leaf? then 0 else 1;
  }

  /** The erased node has at most one child `x`, which takes its place and its colour. */
  lemma LiftedRb<T>(c: Ctx<T>, t: Tree<T>, x: Tree<T>) returns (h: nat)
    requires t.Node? && RedBlack(Plug(c, t))
    requires (t.left.Leaf? && x == t.right) || (t.right.Leaf? && x == t.left)
    ensures if x.Leaf? && !t.red && c.Up? then Short(c, x, h) else CRb(c, h) && Rb(x.Paint(t.red), h)
    ensures x.Paint(t.red).IsRed() ==> c.Up? && !c.red
  {
    var k := RbUnplug(c, t);
    assert Rb(t.left, if t.red then k else k - 1) && Rb(t.right, if t.red then k else k - 1);
    h := if x.Leaf? then 0 else k;
  }

  lemma LiftedInorder<T>(c: Ctx<T>, t: Tree<T>, x: Tree<T>)
    requires t.Node? && ((t.left.Leaf? && x == t.right) || (t.right.Leaf? && x == t.left))
    ensures Inorder(x.Paint(t.red)) == Inorder(t.left) + Inorder(t.right)
  {
    PaintInorder(x, t.red);
  }

  // ---------------------------------------------------------------- the writes, in program order

  /** Case 3 only: the successor leaves its parent `q` and takes the right subtree of the erased node. */
  ghost function FarMem<T>(m: Mem<T>, s: RBNode<T>, q: RBNode<T>, child: RBNode<T>): (m': Mem<T>)
    requires {s, q, child} <= m.Keys
    ensures m'.Keys == m.Keys
  {
    MSetParent(MSetKid(MSetKid(m, q, L, m[s].right), s, R, child), child, s)
  }

  /** Cases 2 and 3: the successor takes the left subtree, the place and the colour of `n`. */
  ghost function PlaceLinks<T>(m: Mem<T>, n: RBNode<T>, s: RBNode<T>, c: Ctx<T>): (m': Mem<T>)
    requires {n, s} <= m.Keys && m[n].left != null && m[n].left in m && (c.Up? ==> c.n in m)
    ensures m'.Keys == m.Keys
  {
    MChangeChild(MSetParent(MSetKid(m, s, L, m[n].left), m[n].left, s), c, s)
  }

  ghost function PlaceMem<T>(m: Mem<T>, n: RBNode<T>, s: RBNode<T>, q: RBNode<T>, child2: RBNode?<T>, c: Ctx<T>): (m': Mem<T>)
    requires {n, s, q} <= m.Keys && m[n].left != null && m[n].left in m && (c.Up? ==> c.n in m) && (child2 != null ==> child2 in m)
    ensures m'.Keys == m.Keys
  {
    MSetPC(MPaint(PlaceLinks(m, n, s, c), child2, q), s, m[n].parent, m[n].red)
  }

  lemma PlaceLinksCells<T>(m: Mem<T>, n: RBNode<T>, s: RBNode<T>, q: RBNode<T>, child2: RBNode?<T>, c: Ctx<T>)
    requires {n, s, q} <= m.Keys && m[n].left != null && m[n].left in m && m[n].left !in {n, s} && n != s && (c.Up? ==> c.n in m && c.n !in {n, s})
    requires Loose(m, child2, {n, s})
    ensures var m' := PlaceLinks(m, n, s, c);
      && m'[n] == m[n] && m'[s].red == m[s].red && Opt(child2) <= m.Keys && Loose(m', child2, {n, s})
      && PlaceMem(m, n, s, q, child2, c) == MSetPC(MPaint(m', child2, q), s, m[n].parent, m[n].red)
  {
  }

  /** The pointers around a node with two children. */
  ghost predicate TwoKids<T>(m: Mem<T>, c: Ctx<T>, t: Tree<T>)
    requires t.Node? && t.left.Node? && t.right.Node?
  {
    var (l, r, s) := (t.left.n, t.right.n, Min(t.right).n);
    && {t.n, l, r, s} <= m.Keys && m[t.n] == Cell(c.Head(), t.red, l, r) && m[l].red == t.left.red
    && m[r].left == t.right.left.Root() && m[s].left == null && m[s].right == Min(t.right).right.Root() && m[s].red == Min(t.right).red
    && l !in {t.n, r, s} && t.n !in {r, s} && (t.right.left.Node? ==> r != s)
    && HangsAt(m, t.n, m[t.n].parent, c) && (c.Up? ==> c.n !in {t.n, l, r, s})
    && Loose(m, m[s].right, {t.n, l, s} + Opt(c.Head()))
    && (t.right.left.Leaf? ==> s == r)
    && (t.right.left.Node? ==>
      var q := AboveMin(t.right); q in m && q !in {t.n, l, s} + Opt(c.Head()) && m[q].left == s && Loose(m, m[s].right, {q, r}))
  }

  ghost predicate Placed<T>(m: Mem<T>, m': Mem<T>, c: Ctx<T>, t: Tree<T>)
    requires t.Node? && t.left.Node? && t.right.Node?
  {
    var (l, r, s, x) := (t.left.n, t.right.n, Min(t.right).n, Min(t.right).right);
    var q := if t.right.left.Leaf? then s else AboveMin(t.right);
    && {l, r, s, q} <= m.Keys * m'.Keys && Opt(x.Root()) + Opt(c.Head()) <= m.Keys * m'.Keys
    && m'[s] == Cell(c.Head(), t.red, l, if t.right.left.Leaf? then x.Root() else r)
    && m'[l] == m[l].(parent := s)
    && (x.Node? ==> m'[x.n] == m[x.n].(parent := q, red := false))
    && (c.Up? ==> m'[c.n] == m[c.n].SetKid(c.side, s))
    && (t.right.left.Node? ==>
      if q == r then m'[r] == m[r].(parent := s, left := x.Root())
      else m'[r] == m[r].(parent := s) && m'[q] == m[q].(left := x.Root()))
    && Changes(m, m', {l, r, s, q} + Opt(x.Root()) + Opt(c.Head()))
  }

  lemma NearPlaced<T>(m: Mem<T>, c: Ctx<T>, t: Tree<T>)
    requires t.Node? && t.left.Node? && t.right.Node? && t.right.left.Leaf? && TwoKids(m, c, t)
    ensures var s := Min(t.right).n; Placed(m, PlaceMem(m, t.n, s, s, m[s].right, c), c, t)
  {
  }

  ghost predicate FarDone<T>(m: Mem<T>, m': Mem<T>, s: RBNode<T>, q: RBNode<T>, r: RBNode<T>) {
    && {s, q, r} <= m.Keys && m'.Keys == m.Keys
    && m'[s] == m[s].(right := r)
    && (if q == r then m'[r] == m[r].(parent := s, left := m[s].right)
        else m'[r] == m[r].(parent := s) && m'[q] == m[q].(left := m[s].right))
    && Changes(m, m', {s, q, r})
  }

  ghost predicate PlaceDone<T>(m: Mem<T>, m': Mem<T>, n: RBNode<T>, s: RBNode<T>, q: RBNode<T>, l: RBNode<T>, child2: RBNode?<T>, c: Ctx<T>) {
    && {n, s, q, l} <= m.Keys && Opt(child2) + Opt(c.Head()) <= m.Keys && m'.Keys == m.Keys
    && m'[s] == m[s].(left := l, parent := m[n].parent, red := m[n].red)
    && m'[l] == m[l].(parent := s)
    && (child2 != null ==> m'[child2] == m[child2].(parent := q, red := false))
    && (c.Up? ==> m'[c.n] == m[c.n].SetKid(c.side, s))
    && Changes(m, m', {s, l} + Opt(child2) + Opt(c.Head()))
  }

  lemma FarChanges<T>(m: Mem<T>, s: RBNode<T>, q: RBNode<T>, r: RBNode<T>)
    requires {s, q, r} <= m.Keys && s != q && s != r
    ensures FarDone(m, FarMem(m, s, q, r), s, q, r)
  {
  }

  lemma PlaceChanges<T>(m: Mem<T>, n: RBNode<T>, s: RBNode<T>, q: RBNode<T>, l: RBNode<T>, child2: RBNode?<T>, c: Ctx<T>)
    requires {n, s, q, l} <= m.Keys && Opt(child2) + Opt(c.Head()) <= m.Keys
    requires m[n].left == l && s != n && l !in {n, s, q} + Opt(c.Head()) && (c.Up? ==> c.n !in {n, s})
    requires child2 != null ==> child2 !in {n, s, q, l} + Opt(c.Head())
    ensures PlaceDone(m, PlaceMem(m, n, s, q, child2, c), n, s, q, l, child2, c)
  {
  }

  lemma FarThenPlace<T>(m: Mem<T>, m1: Mem<T>, m2: Mem<T>, c: Ctx<T>, t: Tree<T>)
    requires t.Node? && t.left.Node? && t.right.Node? && t.right.left.Node? && TwoKids(m, c, t)
    requires var (s, q) := (Min(t.right).n, AboveMin(t.right));
      FarDone(m, m1, s, q, t.right.n) && PlaceDone(m1, m2, t.n, s, q, t.left.n, m[s].right, c)
    ensures Placed(m, m2, c, t)
  {
  }

  lemma FarPlaced<T>(m: Mem<T>, c: Ctx<T>, t: Tree<T>)
    requires t.Node? && t.left.Node? && t.right.Node? && t.right.left.Node? && TwoKids(m, c, t)
    ensures var (s, q) := (Min(t.right).n, AboveMin(t.right));
      Placed(m, PlaceMem(FarMem(m, s, q, t.right.n), t.n, s, q, m[s].right, c), c, t)
  {
    var (s, q, r) := (Min(t.right).n, AboveMin(t.right), t.right.n);
    var m1 := FarMem(m, s, q, r);
    assert FarDone(m, m1, s, q, r) by { FarChanges(m, s, q, r); }
    var m2 := PlaceMem(m1, t.n, s, q, m[s].right, c);
    assert PlaceDone(m1, m2, t.n, s, q, t.left.n, m[s].right, c) by {
      PlaceChanges(m1, t.n, s, q, t.left.n, m[s].right, c);
    }
    FarThenPlace(m, m1, m2, c, t);
  }

  lemma {:induction false} MinIs<T>(m: Mem<T>, r: Tree<T>, p: RBNode?<T>, par: RBNode?<T>)
    requires r.Node? && Is(m, r, p, par)
    ensures var s := Min(r).n;
      && s in m && m[s].left == null && m[s].right == Min(r).right.Root() && m[s].red == Min(r).red
      && (Min(r).right.Node? ==> Min(r).right.n in m)
    ensures r.left.Node? ==> AboveMin(r) in m && m[AboveMin(r)].left == Min(r).n
  {
    if r.left.Leaf? {
      RootIn(m, r.right, m[r.n].right, r.n);
    } else {
      RootIn(m, r.left, m[r.n].left, r.n);
      MinIs(m, r.left, r.left.n, r.n);
    }
  }

  lemma HangsAtHead<T>(m: Mem<T>, c: Ctx<T>, n: RBNode<T>, root: RBNode?<T>)
    requires CIs(m, c, n, root) && CDistinct(c) && n !in CNodes(c)
    ensures HangsAt(m, n, c.Head(), c) && Opt(c.Head()) <= CNodes(c) * m.Keys
  {
    if c.Up? {
      RootIn(m, c.sib, m[c.n].Kid(c.side.Flip()), c.n);
    }
  }

  lemma TwoKidsHold<T>(m: Mem<T>, c: Ctx<T>, t: Tree<T>, root: RBNode?<T>)
    requires Below(m, c, t, root) && t.Node? && t.left.Node? && t.right.Node?
    ensures TwoKids(m, c, t)
  {
    HangsAtHead(m, c, t.n, root);
    RootIn(m, t.left, m[t.n].left, t.n);
    RootIn(m, t.right, m[t.n].right, t.n);
    RootIn(m, t.right.left, m[t.right.n].left, t.right.n);
    MinIs(m, t.right, t.right.n, t.n);
    MinParts(t.right);
    var x := Min(t.right).right;
    assert x.Node? ==> x.n in Nodes(x);
    assert Nodes(t.left) + Nodes(t.right) + {t.n} == Nodes(t);
  }

  /** The cells written when a node with two children is replaced by its successor. */
  ghost function PlaceWritten<T>(c: Ctx<T>, t: Tree<T>): set<RBNode<T>>
    requires t.Node? && t.left.Node? && t.right.Node?
  {
    {t.left.n, t.right.n, Min(t.right).n} + (if t.right.left.Leaf? then {} else {AboveMin(t.right)})
    + Opt(Min(t.right).right.Root()) + Opt(c.Head())
  }

  lemma PlaceApart<T>(c: Ctx<T>, t: Tree<T>)
    requires t.Node? && t.left.Node? && t.right.Node? && CDistinct(c) && Distinct(t) && Nodes(t) !! CNodes(c)
    ensures var w := PlaceWritten(c, t);
      && Nodes(t.left.left) !! w && Nodes(t.left.right) !! w
      && (c.Up? ==> Nodes(c.sib) !! w && CNodes(c.up) !! w)
      && (t.right.left.Leaf? && t.right.right.Node? ==> Nodes(t.right.right.left) !! w && Nodes(t.right.right.right) !! w)
      && Nodes(t.right) * w <= {t.right.n, Min(t.right).n} + (if t.right.left.Leaf? then {} else {AboveMin(t.right)})
                               + Opt(Min(t.right).right.Root())
  {
    var w := PlaceWritten(c, t);
    MinParts(t.right);
    var x := Min(t.right).right;
    assert x.Node? ==> x.n in Nodes(x);
    assert w <= Nodes(t) + Opt(c.Head());
    AboveApart(c, w);
    KidsApart(t.left, w);
    if t.right.left.Leaf? {
      KidsApart(t.right.right, w);
    }
  }

  lemma PlacedIs<T>(m: Mem<T>, m': Mem<T>, c: Ctx<T>, t: Tree<T>, root: RBNode?<T>, root': RBNode?<T>)
    requires Below(m, c, t, root) && t.Node? && t.left.Node? && t.right.Node? && Placed(m, m', c, t)
    requires root' == if c.Up? then root else Min(t.right).n
    ensures var x := Min(t.right).right.Paint(false); CIs(m', HoleCtx(c, t), x.Root(), root') && Is(m', x, x.Root(), HoleCtx(c, t).Head())
  {
    var (s, w) := (Min(t.right).n, PlaceWritten(c, t));
    PlaceApart(c, t);
    RootIn(m, t.left, m[t.n].left, t.n);
    RootIn(m, t.right, m[t.n].right, t.n);
    assert MinGone(m, m', t.right, s, w) by {
      if t.right.left.Node? {
        MinGoneHolds(m, m', t.right, t.n, s, w);
      }
    }
    ReplacedIs(m, m', c, t, root, root', w);
  }

  /** The erased node has at most one child `x`: the writes of case 1. */
  lemma LiftedIs<T>(m: Mem<T>, m': Mem<T>, c: Ctx<T>, t: Tree<T>, x: Tree<T>, root: RBNode?<T>, root': RBNode?<T>)
    requires Below(m, c, t, root) && t.Node? && ((t.left.Leaf? && x == t.right) || (t.right.Leaf? && x == t.left))
    requires Changes(m, m', Opt(x.Root()) + Opt(c.Head()))
    requires x.Node? ==> x.n in m && x.n in m' && m'[x.n] == m[x.n].(parent := c.Head(), red := t.red)
    requires c.Up? ==> c.n in m && c.n in m' && m'[c.n] == m[c.n].SetKid(c.side, x.Root())
    requires root' == if c.Up? then root else x.Root()
    ensures CIs(m', c, x.Root(), root') && Is(m', x.Paint(t.red), x.Root(), c.Head())
  {
    var w := Opt(x.Root()) + Opt(c.Head());
    assert w <= Nodes(t) + Opt(c.Head());
    AboveApart(c, w);
    KidsApart(x, w);
    CIsChangeChild(m, m', c, t.n, root, x.Root(), root', w);
    RootIn(m, t.left, m[t.n].left, t.n);
    RootIn(m, t.right, m[t.n].right, t.n);
    IsMoved(m, m', x, x.Root(), t.n, c.Head(), t.red, w);
  }

  lemma KidPointers<T>(m: Mem<T>, c: Ctx<T>, t: Tree<T>, root: RBNode?<T>)
    requires Below(m, c, t, root) && t.Node?
    ensures t.n in m && m[t.n] == Cell(c.Head(), t.red, t.left.Root(), t.right.Root()) && HangsAt(m, t.n, c.Head(), c)
    ensures Opt(t.left.Root()) + Opt(t.right.Root()) <= m.Keys && t.n !in Opt(t.left.Root()) + Opt(t.right.Root())
    ensures c.Up? ==> c.n !in {t.n} + Opt(t.left.Root()) + Opt(t.right.Root())
  {
    HangsAtHead(m, c, t.n, root);
    RootIn(m, t.left, m[t.n].left, t.n);
    RootIn(m, t.right, m[t.n].right, t.n);
  }

  /** A node that is not in the tree may leave the memory. */
  lemma Dropped<T>(m: Mem<T>, c: Ctx<T>, t: Tree<T>, root: RBNode?<T>, n: RBNode<T>)
    requires CIs(m, c, t.Root(), root) && Is(m, t, t.Root(), c.Head()) && n !in InCtx(c, Inorder(t))
    ensures CIs(m - {n}, c, t.Root(), root) && Is(m - {n}, t, t.Root(), c.Head())
  {
    InorderPlug(c, t);
    NodesInorder(Plug(c, t));
    NodesPlug(c, t);
    IsFrame(m, m - {n}, t, t.Root(), c.Head(), {n});
    CIsFrame(m, m - {n}, c, t.Root(), root, {n});
  }

  lemma NoDupWithout<T>(a: seq<T>, x: T, b: seq<T>)
    requires NoDup(a + [x] + b)
    ensures NoDup(a + b) && x !in a + b
  {
    var s := a + [x] + b;
    assert forall i :: 0 <= i < |a| ==> (a + b)[i] == s[i];
    assert forall i :: |a| <= i < |a + b| ==> (a + b)[i] == s[i + 1];
    assert s[|a|] == x;
  }

  /** After the writes of case 3 the successor can still take the place of `n`. */
  ghost predicate FarReady<T>(m: Mem<T>, m': Mem<T>, n: RBNode<T>, s: RBNode<T>, child2: RBNode?<T>, c: Ctx<T>) {
    && {n, s} <= m.Keys && m'.Keys == m.Keys && Opt(child2) + Opt(c.Head()) + Opt(m[n].left) <= m.Keys
    && m'[n] == m[n] && m'[s].red == m[s].red && m[n].left != null && m[n].left !in {n, s} + Opt(c.Head())
    && HangsAt(m', n, m[n].parent, c) && (c.Up? ==> c.n !in {n, s}) && Loose(m', child2, {n, s})
  }

  lemma FarKeeps<T>(m: Mem<T>, c: Ctx<T>, t: Tree<T>)
    requires t.Node? && t.left.Node? && t.right.Node? && t.right.left.Node? && TwoKids(m, c, t)
    ensures var (s, q) := (Min(t.right).n, AboveMin(t.right));
      FarReady(m, FarMem(m, s, q, t.right.n), t.n, s, m[s].right, c)
  {
    FarChanges(m, Min(t.right).n, AboveMin(t.right), t.right.n);
  }

  /** The hole where the successor stood, and the orphan in it. */
  ghost predicate Spliced<T>(m: Mem<T>, c: Ctx<T>, t: Tree<T>, root: RBNode?<T>)
    requires t.Node? && t.right.Node?
  {
    var (d, x) := (HoleCtx(c, t), Min(t.right).right.Paint(false));
    CIs(m, d, x.Root(), root) && Is(m, x, x.Root(), d.Head())
  }

  lemma NearSpliced<T>(m: Mem<T>, c: Ctx<T>, t: Tree<T>, root: RBNode?<T>)
    requires Below(m, c, t, root) && t.Node? && t.left.Node? && t.right.Node? && t.right.left.Leaf? && TwoKids(m, c, t)
    ensures var s := t.right.n; Spliced(PlaceMem(m, t.n, s, s, m[s].right, c), c, t, if c.Up? then root else s)
  {
    var s := t.right.n;
    var m' := PlaceMem(m, t.n, s, s, m[s].right, c);
    assert Placed(m, m', c, t) by { NearPlaced(m, c, t); }
    PlacedIs(m, m', c, t, root, if c.Up? then root else s);
  }

  lemma FarSpliced<T>(m: Mem<T>, c: Ctx<T>, t: Tree<T>, root: RBNode?<T>)
    requires Below(m, c, t, root) && t.Node? && t.left.Node? && t.right.Node? && t.right.left.Node? && TwoKids(m, c, t)
    ensures var (s, q) := (Min(t.right).n, AboveMin(t.right));
      Spliced(PlaceMem(FarMem(m, s, q, t.right.n), t.n, s, q, m[s].right, c), c, t, if c.Up? then root else s)
  {
    var (s, q) := (Min(t.right).n, AboveMin(t.right));
    var m' := PlaceMem(FarMem(m, s, q, t.right.n), t.n, s, q, m[s].right, c);
    assert Placed(m, m', c, t) by { FarPlaced(m, c, t); }
    PlacedIs(m, m', c, t, root, if c.Up? then root else s);
  }

  ghost function Without<T>(s: seq<T>, x: T): seq<T> {
    if s == [] then [] else if s[0] == x then s[1..] else [s[0]] + Without(s[1..], x)
  }

  lemma {:induction false} WithoutMiddle<T>(a: seq<T>, x: T, b: seq<T>)
    requires x !in a
    ensures Without(a + [x] + b, x) == a + b
  {
    var s := a + [x] + b;
    if a == [] {
      assert s[1..] == a + b;
    } else {
      assert s[0] == a[0] && s[1..] == a[1..] + [x] + b;
      WithoutMiddle(a[1..], x, b);
      assert [a[0]] + (a[1..] + b) == a + b;
    }
  }

  /** The hole `d` holding `x` spells the old sequence without the erased node. */
  lemma ErasedWithout<T>(c: Ctx<T>, t: Tree<T>, d: Ctx<T>, x: Tree<T>)
    requires t.Node? && NoDup(InCtx(c, Inorder(t)))
    requires InCtx(d, Inorder(x)) == InCtx(c, Inorder(t.left) + Inorder(t.right))
    ensures InCtx(d, Inorder(x)) == Without(InCtx(c, Inorder(t)), t.n)
    ensures NoDup(InCtx(d, Inorder(x))) && t.n !in InCtx(d, Inorder(x))
  {
    var (a, b) := (Before(c) + Inorder(t.left), Inorder(t.right) + After(c));
    ErasedSequence(c, t);
    NoDupWithout(a, t.n, b);
    WithoutMiddle(a, t.n, b);
  }

  lemma WithoutMembers<T>(s: seq<T>, x: T)
    requires NoDup(s) && x in s
    ensures forall y <- s :: y != x ==> y in Without(s, x)
    ensures forall y <- Without(s, x) :: y in s && y != x
  {
    var i :| 0 <= i < |s| && s[i] == x;
    assert s == s[..i] + [x] + s[i + 1..];
    WithoutMiddle(s[..i], x, s[i + 1..]);
    NoDupWithout(s[..i], x, s[i + 1..]);
  }

  lemma ErasedNodes<T>(t: Tree<T>, t': Tree<T>, n: RBNode<T>)
    requires NoDup(Inorder(t)) && n in Nodes(t) && Inorder(t') == Without(Inorder(t), n)
    ensures Nodes(t') == Nodes(t) - {n}
  {
    NodesInorder(t);
    NodesInorder(t');
    WithoutMembers(Inorder(t), n);
  }

  /** The focus on a node of a red-black tree. */
  lemma EraseFocus<T>(m: Mem<T>, t: Tree<T>, root: RBNode?<T>, n: RBNode<T>) returns (c: Ctx<T>, t': Tree<T>)
    requires Is(m, t, root, null) && NoDup(Inorder(t)) && n in Nodes(t)
    ensures t'.Node? && t'.n == n && Plug(c, t') == t && Below(m, c, t', root) && InCtx(c, Inorder(t')) == Inorder(t)
  {
    c, t' := Focus(Top, t, n);
    IsUnplug(m, c, t', root);
    InorderPlug(c, t');
    NoDupSplit(c, t');
  }

  lemma NoDupWith<T>(a: seq<T>, x: T, b: seq<T>)
    requires NoDup(a + b) && x !in a + b
    ensures NoDup(a + [x] + b)
  {
    var s := a + [x] + b;
    assert forall i :: 0 <= i < |a| ==> s[i] == (a + b)[i];
    assert forall i :: |a| < i < |s| ==> s[i] == (a + b)[i - 1];
  }

  lemma LinkedSequence<T>(c: Ctx<T>, n: RBNode<T>)
    requires NoDup(Inorder(Plug(c, Leaf))) && n !in Nodes(Plug(c, Leaf))
    ensures Inorder(Plug(c, Leaf)) == Before(c) + After(c)
    ensures InCtx(c, Inorder(Node(Leaf, n, true, Leaf))) == Before(c) + [n] + After(c)
    ensures NoDup(Before(c) + [n] + After(c)) && CDistinct(c) && CNodes(c) == Nodes(Plug(c, Leaf)) && n !in CNodes(c)
  {
    InorderPlug(c, Leaf);
    InCtxSplits(c, []);
    assert Before(c) + [] + After(c) == Before(c) + After(c);
    assert Inorder(Node(Leaf, n, true, Leaf)) == [n];
    InCtxSplits(c, [n]);
    NodesInorder(Plug(c, Leaf));
    NodesPlug(c, Leaf);
    NoDupWith(Before(c), n, After(c));
    NoDupSplit(c, Leaf);
  }

  /** Hanging the new red leaf `n` below `c`. */
  ghost function LinkMem<T>(m: Mem<T>, c: Ctx<T>, n: RBNode<T>): (m': Mem<T>)
    requires c.Up? ==> c.n in m
    ensures m'.Keys == m.Keys + {n}
  {
    MChangeChild(m, c, n)[n := Cell(c.Head(), true, null, null)]
  }

  lemma LinkedIs<T>(m: Mem<T>, c: Ctx<T>, n: RBNode<T>, root: RBNode?<T>)
    requires Is(m, Plug(c, Leaf), root, null) && CDistinct(c) && n !in m
    ensures c.Up? ==> c.n in m
    ensures var (m', root') := (LinkMem(m, c, n), if c.Up? then root else n);
      CIs(m', c, n, root') && Is(m', Node(Leaf, n, true, Leaf), n, c.Head())
  {
    IsUnplug(m, c, Leaf, root);
    var m' := LinkMem(m, c, n);
    var root' := if c.Up? then root else n;
    AboveApart(c, Opt(c.Head()));
    CIsChangeChild(m, m', c, null, root, n, root', Opt(c.Head()));
  }

  lemma LinkedRb<T>(c: Ctx<T>, n: RBNode<T>)
    requires RedBlack(Plug(c, Leaf))
    ensures CRb(c, 0) && Rb(Node(Leaf, n, true, Leaf), 0)
  {
    var h := RbUnplug(c, Leaf);
  }

  lemma NodesWith<T>(t: Tree<T>, t': Tree<T>, a: seq<RBNode<T>>, n: RBNode<T>, b: seq<RBNode<T>>)
    requires Inorder(t) == a + b && Inorder(t') == a + [n] + b
    ensures Nodes(t') == Nodes(t) + {n}
  {
    NodesInorder(t);
    NodesInorder(t');
    assert forall x <- Nodes(t) :: x in a || x in b;
    assert forall x <- Nodes(t') :: x in a || x == n || x in b;
    assert forall x <- a :: x in Inorder(t) && x in Inorder(t');
    assert forall x <- b :: x in Inorder(t) && x in Inorder(t');
    assert n in Inorder(t');
  }
}
