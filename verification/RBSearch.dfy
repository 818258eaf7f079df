/** Descents by key in a red-black tree whose sequence runs from the largest key to the smallest. */
module RBSearch {
  import opened ByteOrder
  import opened RBShape
  import opened RBInsert
  import opened RBErase
  import opened RBSplice
  import opened RBTrees
  import opened Sequences
  import opened Sides

  /** How the items of a tree are keyed and compared. */
  datatype Keying<!T> = Keying(key: T -> Bytes, order: Order) {
    function Key(x: RBNode<T>): Bytes { key(x.item) }

    function Cmp(x: RBNode<T>, k: Bytes): int { Compare(order, key(x.item), k) }
  }

  ghost predicate AllAbove<T>(s: seq<RBNode<T>>, k: Bytes, o: Keying<T>) {
    forall x <- s :: o.Cmp(x, k) > 0
  }

  ghost predicate AllBelow<T>(s: seq<RBNode<T>>, k: Bytes, o: Keying<T>) {
    forall x <- s :: o.Cmp(x, k) < 0
  }

  /** The keys decrease: the source goes left when the node at hand is the smaller one. */
  ghost predicate Ordered<T>(s: seq<RBNode<T>>, o: Keying<T>) {
    s == [] || (AllBelow(s[1..], o.Key(s[0]), o) && Ordered(s[1..], o))
  }

  lemma {:induction false} OrderedSum<T>(a: seq<RBNode<T>>, b: seq<RBNode<T>>, o: Keying<T>)
    ensures Ordered(a + b, o) <==> Ordered(a, o) && Ordered(b, o) && forall x <- a :: AllBelow(b, o.Key(x), o)
  {
    if a == [] {
      assert a + b == b;
    } else {
      assert (a + b)[1..] == a[1..] + b;
      OrderedSum(a[1..], b, o);
      assert forall x <- a :: x == a[0] || x in a[1..];
      assert forall y <- b :: y in (a + b)[1..];
    }
  }

  lemma OrderedAround<T>(a: seq<RBNode<T>>, x: RBNode<T>, b: seq<RBNode<T>>, o: Keying<T>)
    ensures Ordered(a + [x] + b, o) <==> Ordered(a + b, o) && AllAbove(a, o.Key(x), o) && AllBelow(b, o.Key(x), o)
  {
    OrderedSum(a + [x], b, o);
    OrderedSum(a, [x], o);
    OrderedSum(a, b, o);
    assert forall y <- a :: AllBelow([x], o.Key(y), o) <==> o.Cmp(x, o.Key(y)) < 0;
    forall y | y in a
      ensures o.Cmp(x, o.Key(y)) < 0 <==> o.Cmp(y, o.Key(x)) > 0
    {
      CompareOrder(o.order, o.Key(x), o.Key(y));
    }
  }

  lemma AboveFurther<T>(s: seq<RBNode<T>>, x: RBNode<T>, k: Bytes, o: Keying<T>)
    requires AllAbove(s, o.Key(x), o) && o.Cmp(x, k) > 0
    ensures AllAbove(s, k, o)
  {
    forall y | y in s
      ensures o.Cmp(y, k) > 0
    {
      CompareOrder(o.order, k, o.Key(x));
      CompareOrder(o.order, o.Key(x), o.Key(y));
      CompareTransitive(o.order, k, o.Key(x), o.Key(y));
      CompareOrder(o.order, k, o.Key(y));
    }
  }

  lemma BelowFurther<T>(s: seq<RBNode<T>>, x: RBNode<T>, k: Bytes, o: Keying<T>)
    requires AllBelow(s, o.Key(x), o) && o.Cmp(x, k) < 0
    ensures AllBelow(s, k, o)
  {
    forall y | y in s
      ensures o.Cmp(y, k) < 0
    {
      CompareTransitive(o.order, o.Key(y), o.Key(x), k);
    }
  }

  /** `k` belongs in the hole of `c`. */
  ghost predicate Between<T>(c: Ctx<T>, k: Bytes, o: Keying<T>) {
    AllAbove(Before(c), k, o) && AllBelow(After(c), k, o)
  }

  /** The step of a descent: `k` belongs on the side the comparison says. */
  lemma Descend<T>(c: Ctx<T>, t: Tree<T>, k: Bytes, o: Keying<T>)
    requires t.Node? && Ordered(InCtx(c, Inorder(t)), o) && Between(c, k, o)
    ensures o.Cmp(t.n, k) < 0 ==> Between(Up(L, t.n, t.red, t.right, c), k, o)
    ensures o.Cmp(t.n, k) > 0 ==> Between(Up(R, t.n, t.red, t.left, c), k, o)
  {
    var (a, l, x, r, b) := (Before(c), Inorder(t.left), t.n, Inorder(t.right), After(c));
    ErasedSequence(c, t);
    OrderedAround(a + l, x, r + b, o);
    assert forall y <- l :: y in a + l;
    assert forall y <- r :: y in r + b;
    if o.Cmp(x, k) < 0 {
      BelowFurther(r, x, k, o);
    } else if o.Cmp(x, k) > 0 {
      AboveFurther(l, x, k, o);
    }
  }

  // ---------------------------------------------------------------- the map the tree stands for

  /** The items by key. */
  ghost function Table<T>(s: seq<RBNode<T>>, o: Keying<T>): map<Bytes, T> {
    if s == [] then map[] else Table(s[1..], o)[o.Key(s[0]) := s[0].item]
  }

  lemma {:induction false} TableKeys<T>(s: seq<RBNode<T>>, o: Keying<T>)
    ensures forall x <- s :: o.Key(x) in Table(s, o)
    ensures forall k <- Table(s, o) :: exists x <- s :: o.Key(x) == k
  {
    if s != [] {
      TableKeys(s[1..], o);
      forall k | k in Table(s, o)
        ensures exists x <- s :: o.Key(x) == k
      {
        if k == o.Key(s[0]) {
          assert s[0] in s;
        } else {
          var x :| x in s[1..] && o.Key(x) == k;
          assert x in s;
        }
      }
    }
  }

  lemma KeyDiffers<T>(s: seq<RBNode<T>>, k: Bytes, o: Keying<T>)
    requires AllAbove(s, k, o) || AllBelow(s, k, o)
    ensures k !in Table(s, o)
  {
    TableKeys(s, o);
    CompareOrder(o.order, k, k);
  }

  lemma {:induction false} TableSum<T>(a: seq<RBNode<T>>, b: seq<RBNode<T>>, o: Keying<T>)
    ensures Table(a + b, o) == Table(b, o) + Table(a, o)
  {
    if a == [] {
      assert a + b == b;
    } else {
      assert (a + b)[0] == a[0] && (a + b)[1..] == a[1..] + b;
      TableSum(a[1..], b, o);
    }
  }

  /** Adding or taking out one node changes the map at one key. */
  lemma TableWith<T>(a: seq<RBNode<T>>, x: RBNode<T>, b: seq<RBNode<T>>, o: Keying<T>)
    requires AllAbove(a, o.Key(x), o) && AllBelow(b, o.Key(x), o)
    ensures o.Key(x) !in Table(a + b, o)
    ensures Table(a + [x] + b, o) == Table(a + b, o)[o.Key(x) := x.item]
    ensures Table(a + b, o) == Table(a + [x] + b, o) - {o.Key(x)}
  {
    KeyDiffers(a, o.Key(x), o);
    KeyDiffers(b, o.Key(x), o);
    TableSum(a, b, o);
    TableSum(a + [x], b, o);
    TableSum(a, [x], o);
    assert Table([x], o) == map[o.Key(x) := x.item];
  }

  /** The hole the descent ends in: no item has the key, and a node with that key fits there. */
  lemma NotFound<T>(c: Ctx<T>, k: Bytes, o: Keying<T>)
    requires Ordered(InCtx(c, []), o) && Between(c, k, o)
    ensures InCtx(c, []) == Before(c) + After(c) && k !in Table(Before(c) + After(c), o)
  {
    InCtxSplits(c, []);
    assert Before(c) + [] + After(c) == Before(c) + After(c);
    TableSum(Before(c), After(c), o);
    KeyDiffers(Before(c), k, o);
    KeyDiffers(After(c), k, o);
  }

  lemma Fits<T>(c: Ctx<T>, n: RBNode<T>, o: Keying<T>)
    requires Ordered(Before(c) + After(c), o) && Between(c, o.Key(n), o)
    ensures Ordered(Before(c) + [n] + After(c), o)
    ensures Table(Before(c) + [n] + After(c), o) == Table(Before(c) + After(c), o)[o.Key(n) := n.item]
  {
    OrderedAround(Before(c), n, After(c), o);
    TableWith(Before(c), n, After(c), o);
  }

  lemma Found<T>(s: seq<RBNode<T>>, n: RBNode<T>, o: Keying<T>)
    requires Ordered(s, o) && n in s
    ensures o.Key(n) in Table(s, o) && Table(s, o)[o.Key(n)] == n.item
  {
    var i :| 0 <= i < |s| && s[i] == n;
    assert s == s[..i] + [n] + s[i + 1..];
    OrderedAround(s[..i], n, s[i + 1..], o);
    TableWith(s[..i], n, s[i + 1..], o);
  }

  lemma ErasedTable<T>(s: seq<RBNode<T>>, n: RBNode<T>, o: Keying<T>)
    requires Ordered(s, o) && n in s && NoDup(s)
    ensures Ordered(Without(s, n), o) && Table(Without(s, n), o) == Table(s, o) - {o.Key(n)}
  {
    var i :| 0 <= i < |s| && s[i] == n;
    assert s == s[..i] + [n] + s[i + 1..];
    WithoutMiddle(s[..i], n, s[i + 1..]);
    OrderedAround(s[..i], n, s[i + 1..], o);
    TableWith(s[..i], n, s[i + 1..], o);
  }

  // ---------------------------------------------------------------- on the heap

  /** The descent that every operation of the source writes out: to the node with key `k`, or to the link where it belongs. */
  method Walk<T>(tree: RBTree<T>, k: Bytes, o: Keying<T>)
    returns (node: RBNode?<T>, parent: RBNode?<T>, side: Side, ghost c: Ctx<T>)
    requires tree.Valid() && Ordered(Inorder(tree.shape), o)
    ensures node != null ==>
      node in tree.mem && o.Key(node) == k && k in Table(Inorder(tree.shape), o) && Table(Inorder(tree.shape), o)[k] == node.item
    ensures node == null ==>
      Plug(c, Leaf) == tree.shape && parent == c.Head() && (c.Up? ==> side == c.side) && Between(c, k, o)
      && k !in Table(Inorder(tree.shape), o)
  {
    node, parent, side := tree.root, null, L;
    c := Top;
    ghost var t := tree.shape;
    while node != null
      invariant Plug(c, t) == tree.shape && Is(tree.mem, t, node, c.Head()) && Between(c, k, o)
      invariant parent == c.Head() && (c.Up? ==> side == c.side)
      decreases t
    {
      InorderPlug(c, t);
      Descend(c, t, k, o);
      NodesPlug(c, t);
      var res := o.Cmp(node, k);
      if res == 0 {
        CompareOrder(o.order, o.Key(node), k);
        NodesInorder(tree.shape);
        Found(Inorder(tree.shape), node, o);
        return;
      }
      parent := node;
      if res < 0 {
        c, t := Up(L, t.n, t.red, t.right, c), t.left;
        node, side := node.left, L;
      } else {
        c, t := Up(R, t.n, t.red, t.left, c), t.right;
        node, side := node.right, R;
      }
    }
    InorderPlug(c, Leaf);
    NotFound(c, k, o);
  }

  /** Link and repair, at the place a descent found. */
  method InsertAt<T>(tree: RBTree<T>, node: RBNode<T>, parent: RBNode?<T>, side: Side, ghost c: Ctx<T>, o: Keying<T>)
    requires tree.Valid() && Ordered(Inorder(tree.shape), o) && node !in tree.mem
    requires Plug(c, Leaf) == tree.shape && parent == c.Head() && (c.Up? ==> side == c.side) && Between(c, o.Key(node), o)
    modifies tree, node, tree.mem.Keys
    ensures tree.Valid() && Ordered(Inorder(tree.shape), o) && tree.mem.Keys == old(tree.mem.Keys) + {node}
    ensures Table(Inorder(tree.shape), o) == old(Table(Inorder(tree.shape), o))[o.Key(node) := node.item]
  {
    InorderPlug(c, Leaf);
    NotFound(c, o.Key(node), o);
    Fits(c, node, o);
    tree.Insert(node, parent, side, c);
  }

  method EraseFrom<T>(tree: RBTree<T>, node: RBNode<T>, o: Keying<T>)
    requires tree.Valid() && Ordered(Inorder(tree.shape), o) && node in tree.mem
    modifies tree, tree.mem.Keys
    ensures tree.Valid() && Ordered(Inorder(tree.shape), o) && tree.mem.Keys == old(tree.mem.Keys) - {node}
    ensures Table(Inorder(tree.shape), o) == old(Table(Inorder(tree.shape), o)) - {o.Key(node)}
    ensures Inorder(tree.shape) == Without(old(Inorder(tree.shape)), node)
  {
    NodesInorder(tree.shape);
    ErasedTable(Inorder(tree.shape), node, o);
    tree.Erase(node);
  }
}
