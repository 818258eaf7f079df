/** Putting another node in the place of one in the tree, without any rebalancing. */
module RBReplace {
  import opened RBShape
  import opened RBInsert
  import opened RBErase
  import opened RBSplice
  import opened RBTrees
  import opened Sequences

  /** The sequence with `x` for `v`. */
  ghost function Instead<T>(s: seq<RBNode<T>>, v: RBNode<T>, x: RBNode<T>): (r: seq<RBNode<T>>)
    ensures |r| == |s| && forall i :: 0 <= i < |s| ==> r[i] == if s[i] == v then x else s[i]
  {
    seq(|s|, i requires 0 <= i < |s| => if s[i] == v then x else s[i])
  }

  /** The subtree with another root. */
  ghost function Recast<T>(t: Tree<T>, x: RBNode<T>): Tree<T>
    requires t.Node?
  {
    Node(t.left, x, t.red, t.right)
  }

  lemma InsteadIs<T>(a: seq<RBNode<T>>, v: RBNode<T>, b: seq<RBNode<T>>, x: RBNode<T>)
    requires NoDup(a + [v] + b)
    ensures Instead(a + [v] + b, v, x) == a + [x] + b
  {
    NoDupParts(a, v, b);
  }

  lemma RecastSequence<T>(c: Ctx<T>, t: Tree<T>, x: RBNode<T>)
    requires t.Node? && NoDup(InCtx(c, Inorder(t))) && x !in InCtx(c, Inorder(t))
    ensures InCtx(c, Inorder(Recast(t, x))) == Instead(InCtx(c, Inorder(t)), t.n, x) && NoDup(InCtx(c, Inorder(Recast(t, x))))
  {
    InCtxSplits(c, Inorder(t));
    InCtxSplits(c, Inorder(Recast(t, x)));
    assert Inorder(t) == Inorder(t.left) + [t.n] + Inorder(t.right);
    assert Inorder(Recast(t, x)) == Inorder(t.left) + [x] + Inorder(t.right);
    hide Inorder, InCtx, Before, After, Instead, Recast, NoDup;
    var (a, l, r, b) := (Before(c), Inorder(t.left), Inorder(t.right), After(c));
    Regroup(a, l, [t.n], r, b);
    Regroup(a, l, [x], r, b);
    InsteadIs(a + l, t.n, r + b, x);
    InsteadNoDup(a + l + [t.n] + (r + b), t.n, x);
  }

  lemma InsteadNoDup<T>(s: seq<RBNode<T>>, v: RBNode<T>, x: RBNode<T>)
    requires NoDup(s) && x !in s
    ensures NoDup(Instead(s, v, x))
  {
  }

  /** What the colours and black heights are does not depend on which node it is. */
  lemma RecastRb<T>(c: Ctx<T>, t: Tree<T>, x: RBNode<T>)
    requires t.Node? && RedBlack(Plug(c, t))
    ensures RedBlack(Plug(c, Recast(t, x)))
  {
    RecastHeight(c, t, Recast(t, x), BlackHeight(Plug(c, t)));
    RbHeight(Plug(c, Recast(t, x)), BlackHeight(Plug(c, t)));
  }

  lemma {:induction false} RecastHeight<T>(c: Ctx<T>, t: Tree<T>, t': Tree<T>, h: nat)
    requires Rb(Plug(c, t), h) && t.IsRed() == t'.IsRed() && forall k: nat :: Rb(t, k) ==> Rb(t', k)
    ensures Rb(Plug(c, t'), h) && Plug(c, t').IsRed() == Plug(c, t).IsRed()
  {
    if c.Up? {
      var (u, u') := (Mk(c.side, c.n, c.red, t, c.sib), Mk(c.side, c.n, c.red, t', c.sib));
      forall k: nat | Rb(u, k)
        ensures Rb(u', k)
      {
        RbMk(c.side, c.n, c.red, t, c.sib, k);
        RbMk(c.side, c.n, c.red, t', c.sib, k);
      }
      RecastHeight(c.up, u, u', h);
    }
  }

  /** The memory after all the writes holds the recast subtree in the same place. */
  lemma RecastIs<T>(m: Mem<T>, m': Mem<T>, c: Ctx<T>, t: Tree<T>, x: RBNode<T>, root: RBNode?<T>, root': RBNode?<T>)
    requires Below(m, c, t, root) && t.Node? && x !in Nodes(t) + CNodes(c)
    requires var w := Opt(t.left.Root()) + Opt(t.right.Root()) + Opt(c.Head()) + {x}; Changes(m, m', w)
    requires t.left.Node? ==> t.left.n in m && t.left.n in m' && m'[t.left.n] == m[t.left.n].(parent := x)
    requires t.right.Node? ==> t.right.n in m && t.right.n in m' && m'[t.right.n] == m[t.right.n].(parent := x)
    requires c.Up? ==> c.n in m && c.n in m' && m'[c.n] == m[c.n].SetKid(c.side, x)
    requires t.n in m && x in m' && m'[x] == m[t.n] && root' == if c.Up? then root else x
    ensures CIs(m', c, x, root') && Is(m', Recast(t, x), x, c.Head())
  {
    var (l, r) := (t.left, t.right);
    var w := Opt(l.Root()) + Opt(r.Root()) + Opt(c.Head()) + {x};
    NearDistinct(t);
    RootIn(m, l, m[t.n].left, t.n);
    RootIn(m, r, m[t.n].right, t.n);
    CHeadIn(c);
    AboveApart(c, w);
    KidsApart(l, w);
    KidsApart(r, w);
    CIsChangeChild(m, m', c, t.n, root, x, root', w);
    KidMoves(m, m', l, m[t.n].left, t.n, x, w);
    KidMoves(m, m', r, m[t.n].right, t.n, x, w);
  }

  lemma NearDistinct<T>(t: Tree<T>)
    requires Distinct(t) && t.Node?
    ensures Distinct(t.left) && Distinct(t.right) && Nodes(t.left) !! Nodes(t.right) && Nodes(t) == Nodes(t.left) + {t.n} + Nodes(t.right)
  {
  }

  lemma CHeadIn<T>(c: Ctx<T>)
    ensures Opt(c.Head()) <= CNodes(c)
  {
  }

  lemma KidMoves<T>(m: Mem<T>, m': Mem<T>, k: Tree<T>, p: RBNode?<T>, was: RBNode<T>, x: RBNode<T>, w: set<RBNode<T>>)
    requires Is(m, k, p, was) && Changes(m, m', w)
    requires k.Node? ==> k.n in m && k.n in m' && m'[k.n] == m[k.n].(parent := x) && Nodes(k.left) !! w && Nodes(k.right) !! w
    ensures Is(m', k, p, x)
  {
    if k.Node? {
      IsMoved(m, m', k, p, was, x, k.red, w);
    }
  }

  /** The pointers around the victim. */
  ghost predicate Around<T>(m: Mem<T>, v: RBNode<T>, x: RBNode<T>, c: Ctx<T>) {
    && v in m && x !in m && HangsAt(m, v, m[v].parent, c)
    && Opt(m[v].left) + Opt(m[v].right) <= m.Keys && (m[v].left != null ==> m[v].left != m[v].right)
    && v !in Opt(m[v].left) + Opt(m[v].right) && (c.Up? ==> c.n in m && c.n !in {v} + Opt(m[v].left) + Opt(m[v].right))
  }

  /** What the writes make of the memory. */
  ghost function ReplaceMem<T>(m: Mem<T>, v: RBNode<T>, x: RBNode<T>, c: Ctx<T>): Mem<T>
    requires Around(m, v, x, c)
  {
    MChangeChild(Adopted(Adopted(m[x := m[v]], m[v].left, x), m[v].right, x), c, x)
  }

  lemma ReplaceCells<T>(m: Mem<T>, v: RBNode<T>, x: RBNode<T>, c: Ctx<T>)
    requires Around(m, v, x, c)
    ensures var m' := ReplaceMem(m, v, x, c);
      && m'.Keys == m.Keys + {x} && m'[x] == m[v] && Changes(m, m', Opt(m[v].left) + Opt(m[v].right) + Opt(c.Head()) + {x})
      && (m[v].left != null ==> m'[m[v].left] == m[m[v].left].(parent := x))
      && (m[v].right != null ==> m'[m[v].right] == m[m[v].right].(parent := x))
      && (c.Up? ==> m'[c.n] == m[c.n].SetKid(c.side, x))
  {
  }

  lemma FieldsOf<T>(tree: RBTree<T>, n: RBNode<T>)
    requires tree.Synced() && n in tree.mem
    ensures n.parent == tree.mem[n].parent && n.red == tree.mem[n].red && n.left == tree.mem[n].left && n.right == tree.mem[n].right
  {
  }

  /** The writes one by one. */
  lemma ReplaceSteps<T>(m: Mem<T>, v: RBNode<T>, x: RBNode<T>, c: Ctx<T>) returns (m1: Mem<T>, m2: Mem<T>, m3: Mem<T>)
    requires Around(m, v, x, c) == true
    ensures v in m && x !in m && m1 == m[x := m[v]] && m1.Keys == m2.Keys == m3.Keys == m.Keys + {x}
    ensures (m[v].left != null ==> m[v].left in m1) && m2 == Adopted(m1, m[v].left, x)
    ensures (m[v].right != null ==> m[v].right in m2) && m3 == Adopted(m2, m[v].right, x)
    ensures v in m3 && m3[v] == m[v] && HangsAt(m3, v, m[v].parent, c) && (c.Up? ==> c.n in m3) && ReplaceMem(m, v, x, c) == MChangeChild(m3, c, x)
  {
    m1 := m[x := m[v]];
    m2 := Adopted(m1, m[v].left, x);
    m3 := Adopted(m2, m[v].right, x);
  }

  /** The node `k`, if there is one, has `x` for a parent. */
  ghost function Adopted<T>(m: Mem<T>, k: RBNode?<T>, x: RBNode<T>): (m': Mem<T>)
    requires k != null ==> k in m
    ensures m'.Keys == m.Keys
  {
    if k == null then m else MSetPC(m, k, x, m[k].red)
  }

  method Adopt<T>(tree: RBTree<T>, k: RBNode?<T>, x: RBNode<T>)
    requires tree.Synced() && (k != null ==> k in tree.mem)
    modifies tree`mem, tree.mem.Keys
    ensures tree.Synced() && tree.mem == Adopted(old(tree.mem), k, x)
  {
    if k != null {
      tree.SetParentColor(k, x, k.red);
    }
  }

  /** `*new = *victim` */
  method Copy<T>(tree: RBTree<T>, victim: RBNode<T>, new_: RBNode<T>)
    requires tree.Synced() && victim in tree.mem && new_ !in tree.mem
    modifies tree`mem, new_
    ensures tree.Synced() && tree.mem == old(tree.mem)[new_ := old(tree.mem)[victim]]
  {
    new_.parent, new_.red, new_.left, new_.right := victim.parent, victim.red, victim.left, victim.right;
    tree.mem := tree.mem[new_ := tree.mem[victim]];
  }

  /** The writes of hev_rbtree_replace. */
  method Rewire<T>(tree: RBTree<T>, victim: RBNode<T>, new_: RBNode<T>, ghost c: Ctx<T>)
    requires tree.Synced() == true && Around(tree.mem, victim, new_, c) == true
    modifies tree`mem, tree`root, new_, tree.mem.Keys
    ensures tree.Synced() == true && tree.mem == ReplaceMem(old(tree.mem), victim, new_, c)
    ensures tree.root == if c.Up? then old(tree.root) else new_
  {
    hide *;
    ghost var m1, m2, m3 := ReplaceSteps(tree.mem, victim, new_, c);
    FieldsOf(tree, victim);
    var parent, left, right := victim.parent, victim.left, victim.right;
    Copy(tree, victim, new_);
    Adopt(tree, left, new_);
    Adopt(tree, right, new_);
    tree.ChangeChild(victim, new_, parent, c);
  }

  lemma AroundHolds<T>(m: Mem<T>, c: Ctx<T>, t: Tree<T>, x: RBNode<T>, root: RBNode?<T>)
    requires Below(m, c, t, root) && t.Node? && x !in m && Nodes(t) + CNodes(c) == m.Keys
    ensures Around(m, t.n, x, c) && m[t.n].left == t.left.Root() && m[t.n].right == t.right.Root() && x !in Nodes(t) + CNodes(c)
  {
    KidPointers(m, c, t, root);
    NearDistinct(t);
    RootIn(m, t.left, m[t.n].left, t.n);
    RootIn(m, t.right, m[t.n].right, t.n);
    CHeadIn(c);
  }

  lemma RecastDone<T>(m: Mem<T>, c: Ctx<T>, t: Tree<T>, x: RBNode<T>, root: RBNode?<T>, root': RBNode?<T>)
    requires Below(m, c, t, root) && t.Node? && x !in m && Nodes(t) + CNodes(c) == m.Keys && root' == if c.Up? then root else x
    ensures Around(m, t.n, x, c) && x != t.n && ReplaceMem(m, t.n, x, c).Keys == m.Keys + {x}
    ensures CIs(ReplaceMem(m, t.n, x, c), c, x, root') && Is(ReplaceMem(m, t.n, x, c), Recast(t, x), x, c.Head())
  {
    AroundHolds(m, c, t, x, root);
    hide Below, CIs, Is, Around, ReplaceMem, Recast, Nodes, CNodes;
    BelowIs(m, c, t, root);
    ReplaceCells(m, t.n, x, c);
    RecastIs(m, ReplaceMem(m, t.n, x, c), c, t, x, root, root');
  }

  /** The tree with the recast subtree is as valid as before. */
  lemma Recasts<T>(m: Mem<T>, c: Ctx<T>, t: Tree<T>, x: RBNode<T>, was: Tree<T>, root: RBNode?<T>, root': RBNode?<T>)
    requires Below(m, c, t, root) && t.Node? && x !in m && Plug(c, t) == was && Nodes(was) == m.Keys && InCtx(c, Inorder(t)) == Inorder(was)
    requires RedBlack(was) && NoDup(Inorder(was)) && root' == if c.Up? then root else x
    ensures Around(m, t.n, x, c)
    ensures var (m', shape) := (ReplaceMem(m, t.n, x, c) - {t.n}, Plug(c, Recast(t, x)));
      && Is(m', shape, root', null) && RedBlack(shape) && NoDup(Inorder(shape)) && Nodes(shape) == m'.Keys == m.Keys - {t.n} + {x}
      && Inorder(shape) == Instead(Inorder(was), t.n, x)
  {
    hide *;
    NodesPlug(c, t);
    RecastDone(m, c, t, x, root, root');
    var m1 := ReplaceMem(m, t.n, x, c);
    BelowIs(m, c, t, root);
    NodesInorder(was);
    RecastSequence(c, t, x);
    RecastRb(c, t, x);
    InorderPlug(c, Recast(t, x));
    Gone(c, t, x);
    RecastRoot(t, x);
    Dropped(m1, c, Recast(t, x), root', t.n);
    IsPlug(m1 - {t.n}, c, Recast(t, x), x, root');
  }

  lemma BelowIs<T>(m: Mem<T>, c: Ctx<T>, t: Tree<T>, root: RBNode?<T>)
    requires Below(m, c, t, root) && t.Node?
    ensures t.n in Nodes(t)
  {
  }

  lemma RecastRoot<T>(t: Tree<T>, x: RBNode<T>)
    requires t.Node?
    ensures Recast(t, x).Root() == x
  {
  }

  /** The victim is not among the nodes any more. */
  lemma Gone<T>(c: Ctx<T>, t: Tree<T>, x: RBNode<T>)
    requires t.Node? && NoDup(InCtx(c, Inorder(t))) && x !in InCtx(c, Inorder(t)) && x != t.n
    requires InCtx(c, Inorder(Recast(t, x))) == Instead(InCtx(c, Inorder(t)), t.n, x)
    ensures t.n !in InCtx(c, Inorder(Recast(t, x)))
    ensures Nodes(Plug(c, Recast(t, x))) == Nodes(Plug(c, t)) - {t.n} + {x}
  {
    NoDupSplit(c, t);
    NearDistinct(t);
    NodesPlug(c, t);
    NodesPlug(c, Recast(t, x));
  }

  /** hev_rbtree_replace: `new_` has the place and the colour of `victim`, which is out of the tree. */
  method Replace<T>(tree: RBTree<T>, victim: RBNode<T>, new_: RBNode<T>)
    requires tree.Valid() && victim in tree.mem && new_ !in tree.mem
    modifies tree, new_, tree.mem.Keys
    ensures tree.Valid() && tree.mem.Keys == old(tree.mem.Keys) - {victim} + {new_}
    ensures Inorder(tree.shape) == Instead(old(Inorder(tree.shape)), victim, new_)
  {
    ghost var m, root, was := tree.mem, tree.root, tree.shape;
    hide *;
    Opened(tree);
    ghost var c, t := EraseFocus(m, was, root, victim);
    Recasts(m, c, t, new_, was, root, if c.Up? then root else new_);
    Rewire(tree, victim, new_, c);
    Accept(tree, victim, Plug(c, Recast(t, new_)));
  }

  lemma Opened<T>(tree: RBTree<T>)
    requires tree.Valid()
    ensures tree.Synced() == true && Is(tree.mem, tree.shape, tree.root, null) == true && RedBlack(tree.shape) == true
    ensures NoDup(Inorder(tree.shape)) == true && tree.mem.Keys == Nodes(tree.shape)
  {
  }

  /** The victim leaves the memory, and the shape is the new one. */
  ghost method Accept<T>(tree: RBTree<T>, victim: RBNode<T>, shape: Tree<T>)
    requires tree.Synced() == true && Is(tree.mem - {victim}, shape, tree.root, null) == true && RedBlack(shape) == true
    requires NoDup(Inorder(shape)) == true && Nodes(shape) == tree.mem.Keys - {victim}
    modifies tree`mem, tree`shape
    ensures tree.Valid() && tree.shape == shape && tree.mem == old(tree.mem) - {victim}
  {
    hide Is, RedBlack, NoDup, Nodes, Inorder;
    tree.mem := tree.mem - {victim};
    tree.shape := shape;
  }
}
