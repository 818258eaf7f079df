/** Neighbours in the in-order sequence, found along child and parent pointers. */
module RBWalk {
  import opened RBShape
  import opened RBInsert
  import opened RBErase
  import opened RBSplice
  import opened Sequences
  import opened Sides

  /** The element of `q` nearest to a point that has `q` on its side `s`. */
  ghost function Nearest<T>(s: Side, q: seq<RBNode<T>>): RBNode?<T> {
    if q == [] then null else if s == R then q[0] else q[|q| - 1]
  }

  /** What lies beyond the hole of `c` on side `s`. */
  ghost function Beyond<T>(s: Side, c: Ctx<T>): seq<RBNode<T>> {
    if s == R then After(c) else Before(c)
  }

  lemma BeyondUp<T>(s: Side, c: Ctx<T>)
    requires c.Up?
    ensures c.side == s ==> Beyond(s, c) == Beyond(s, c.up)
    ensures c.side != s ==> Nearest(s, Beyond(s, c)) == c.n
  {
  }

  /** The extreme node of a subtree on the side that faces the hole beyond it. */
  lemma NearestInTree<T>(s: Side, t: Tree<T>)
    requires t.Node?
    ensures Nearest(s, Inorder(t)) == if Near(s.Flip(), t).Node? then Nearest(s, Inorder(Near(s.Flip(), t))) else t.n
  {
  }

  ghost function Neighbour<T>(s: Side, q: seq<RBNode<T>>, i: nat): RBNode?<T>
    requires i < |q|
  {
    if s == R then (if i + 1 < |q| then q[i + 1] else null) else (if i > 0 then q[i - 1] else null)
  }

  lemma NeighbourInSplit<T>(s: Side, a: seq<RBNode<T>>, x: RBNode<T>, b: seq<RBNode<T>>, i: nat)
    requires NoDup(a + [x] + b) && i < |a + [x] + b| && (a + [x] + b)[i] == x
    ensures Neighbour(s, a + [x] + b, i) == if s == R then Nearest(R, b) else Nearest(L, a)
  {
    assert (a + [x] + b)[|a|] == x;
  }

  lemma NearestOfSum<T>(s: Side, a: seq<RBNode<T>>, b: seq<RBNode<T>>)
    ensures Nearest(R, a + b) == if a == [] then Nearest(R, b) else Nearest(R, a)
    ensures Nearest(L, a + b) == if b == [] then Nearest(L, a) else Nearest(L, b)
  {
  }

  /** The neighbour of the root of a subtree: in the subtree if there is one, else beyond it. */
  lemma NeighbourOfFocus<T>(s: Side, c: Ctx<T>, t: Tree<T>, i: nat)
    requires t.Node? && var q := InCtx(c, Inorder(t)); NoDup(q) && i < |q| && q[i] == t.n
    ensures Neighbour(s, InCtx(c, Inorder(t)), i)
         == if Near(s, t).Node? then Nearest(s, Inorder(Near(s, t))) else Nearest(s, Beyond(s, c))
  {
    ErasedSequence(c, t);
    NeighbourInSplit(s, Before(c) + Inorder(t.left), t.n, Inorder(t.right) + After(c), i);
    NearestOfSum(s, Before(c), Inorder(t.left));
    NearestOfSum(s, Inorder(t.right), After(c));
  }

  lemma ParentSide<T>(m: Mem<T>, c: Ctx<T>, child: RBNode<T>, root: RBNode?<T>)
    requires c.Up? && CIs(m, c, child, root) && CDistinct(c) && child !in CNodes(c)
    ensures c.n in m && m[c.n].Kid(c.side) == child && m[c.n].Kid(c.side.Flip()) != child && m[c.n].parent == c.up.Head()
    ensures CIs(m, c.up, c.n, root) && CDistinct(c.up) && c.n !in CNodes(c.up)
  {
    RootIn(m, c.sib, m[c.n].Kid(c.side.Flip()), c.n);
  }
}
