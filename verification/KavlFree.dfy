/** Freeing an AVL tree without a stack: left children are turned up until there is none. */
module KavlFree {
  import opened ByteOrder
  import opened KavlShape
  import opened KavlRules
  import opened KavlMemory
  import opened KavlPaths
  import opened KavlSearch
  import opened KavlTree
  import opened KavlDetach
  import opened Sequences
  import opened Sides

  /** The left child turned up over its parent; the fields of the nodes stay as they are. */
  ghost function TurnedUp(u: Tree): Tree
    requires u.Node? && u.left.Node?
  {
    var q := u.left;
    Node(q.left, q.n, q.b, q.z, Node(q.right, u.n, u.b, u.z, u.right))
  }

  lemma TurnedUpIs(m: Mem, u: Tree)
    requires Is(m, u) == true && Distinct(u) == true && u.Node? && u.left.Node?
    ensures var (p, q) := (u.n, u.left.n);
      && p in m && q in m && p != q && m[p].left == q && m[q].right == u.left.right.Root()
      && var m1 := m[p := m[p].SetKid(L, u.left.right.Root())];
         m1.Keys == m.Keys && m1[q := m1[q].SetKid(R, p)].Keys == m.Keys && Is(m1[q := m1[q].SetKid(R, p)], TurnedUp(u)) == true
    ensures Distinct(TurnedUp(u)) == true && TurnedUp(u).Node? && TurnedUp(u).n == u.left.n
  {
    var (p, q) := (u.n, u.left.n);
    var (a, b, c) := (u.left.left, u.left.right, u.right);
    assert Is(m, u) && Is(m, u.left) && Is(m, a) && Is(m, b) && Is(m, c);
    DistinctNear(u, L);
    DistinctNear(u.left, L);
    hide Distinct, Nodes;
    var m1 := m[p := m[p].SetKid(L, b.Root())];
    var m2 := m1[q := m1[q].SetKid(R, p)];
    IsFrame(m, m2, a, {p, q});
    IsFrame(m, m2, b, {p, q});
    IsFrame(m, m2, c, {p, q});
    DistinctNear(TurnedUp(u), R);
    DistinctNear(TurnedUp(u).right, L);
  }

  lemma TurnedUpInorder(u: Tree)
    requires u.Node? && u.left.Node?
    ensures Inorder(TurnedUp(u)) == Inorder(u) && Count(TurnedUp(u)) == Count(u) && Count(TurnedUp(u).left) < Count(u.left)
  {
    var q := u.left;
    hide Inorder;
    InorderNode(u);
    InorderNode(q);
    InorderNode(TurnedUp(u));
    InorderNode(TurnedUp(u).right);
    Turn5(Inorder(q.left), [q.n], Inorder(q.right), [u.n], Inorder(u.right));
  }

  lemma Turn5<T>(a: seq<T>, q: seq<T>, b: seq<T>, p: seq<T>, c: seq<T>)
    ensures a + q + (b + p + c) == (a + q + b) + p + c
  {
  }

  /** The first node is off, and the rest does without it. */
  lemma FirstOff(m: Mem, u: Tree, freed: seq<Elem>)
    requires Is(m, u) == true && Distinct(u) == true && u.Node? && u.left == Leaf && m.Keys == Nodes(u)
    ensures u.n in m && m[u.n].right == u.right.Root() && Distinct(u.right) == true && Count(u.right) < Count(u)
    ensures Is(m - {u.n}, u.right) == true && (m - {u.n}).Keys == Nodes(u.right)
    ensures freed + [u.n] + Inorder(u.right) == freed + Inorder(u)
  {
    assert [] + [u.n] + Inorder(u.right) == [u.n] + Inorder(u.right);
    Assoc(freed, [u.n], Inorder(u.right));
    IsFrame(m, m - {u.n}, u.right, {u.n});
  }

  lemma TurnedUpNodes(u: Tree)
    requires u.Node? && u.left.Node?
    ensures Nodes(TurnedUp(u)) == Nodes(u)
  {
  }

  lemma NoNodes(m: Mem)
    requires m.Keys == Nodes(Leaf)
    ensures m == map[]
  {
  }

  lemma FirstTurns(m: Mem, u: Tree)
    requires Is(m, u) == true && u.Node?
    ensures u.n in m && m[u.n].left == u.left.Root() && u.Root() == u.n
  {
  }

  ghost function Left1(u: Tree): nat {
    if u.Leaf? then 0 else Count(u.left)
  }

  lemma LeftIs1(u: Tree)
    requires u.Node? && u.left.Node?
    ensures Left1(u) == Count(u.left) && Left1(TurnedUp(u)) == Count(TurnedUp(u).left)
  {
  }

  /** The left child of p, turned up over it. */
  method TurnUp(tree: Kavl, p: Elem, ghost u: Tree) returns (q: Elem)
    requires tree.Synced() == true && Is(tree.mem, u) == true && Distinct(u) == true && u.Node? && u.n == p && u.left.Node?
    modifies tree`mem, tree.mem.Keys
    ensures tree.Synced() == true && tree.mem.Keys == old(tree.mem.Keys) && Nodes(TurnedUp(u)) == Nodes(u)
    ensures Is(tree.mem, TurnedUp(u)) == true && Distinct(TurnedUp(u)) == true && q == TurnedUp(u).Root()
    ensures Inorder(TurnedUp(u)) == Inorder(u) && Count(TurnedUp(u)) == Count(u) && Left1(TurnedUp(u)) < Left1(u)
  {
    hide *;
    TurnedUpIs(tree.mem, u);
    TurnedUpInorder(u);
    TurnedUpNodes(u);
    LeftIs1(u);
    tree.Fields(p);
    q := p.left;
    tree.Fields(q);
    tree.SetKid(p, L, q.right);
    tree.SetKid(q, R, p);
    RootIs(TurnedUp(u));
  }

  /**
   kavl_free: every node is freed exactly once, in order.  What is freed leaves `mem`, and only
   nodes in `mem` are read or written.
   */
  method FreeAll(tree: Kavl) returns (freed: seq<Elem>)
    requires tree.Valid()
    modifies tree, tree.mem.Keys
    ensures freed == old(Inorder(tree.shape)) && (forall i, j :: 0 <= i < j < |freed| ==> freed[i] != freed[j])
    ensures tree.mem == map[]
  {
    var p := tree.root;
    ghost var was, keys := tree.shape, tree.mem.Keys;
    ghost var u, all := was, Inorder(was);
    freed := [];
    assert Distinct(u) == true && Is(tree.mem, u) == true;
    assert [] + all == all;
    hide *;
    tree.Opened();
    while p != null
      invariant tree.Synced() == true && tree.mem.Keys == Nodes(u) <= keys && Is(tree.mem, u) == true && Distinct(u) == true && p == u.Root()
      invariant freed + Inorder(u) == all
      decreases Count(u), Left1(u)
    {
      RootNull(u);
      FirstTurns(tree.mem, u);
      tree.Fields(p);
      RootNull(u.left);
      if p.left == null {
        FirstOff(tree.mem, u, freed);
        var q := p.right;
        freed := freed + [p];
        tree.mem := tree.mem - {p};
        p, u := q, u.right;
      } else {
        p := TurnUp(tree, p, u);
        u := TurnedUp(u);
      }
    }
    RootNull(u);
    NothingLeft(freed);
    NoNodes(tree.mem);
    AllOnce(was);
  }

  lemma AllOnce(t: Tree)
    requires Sound(t) == true
    ensures forall i, j :: 0 <= i < j < |Inorder(t)| ==> Inorder(t)[i] != Inorder(t)[j]
  {
    forall i, j | 0 <= i < j < |Inorder(t)|
      ensures Inorder(t)[i] != Inorder(t)[j]
    {
      var k := Inorder(t)[i].data;
      CompareOrder(ByLength, k, k);
    }
  }

  lemma NothingLeft(freed: seq<Elem>)
    ensures freed + Inorder(Leaf) == freed
  {
  }
}
