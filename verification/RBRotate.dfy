/**
 What the two rotations and the colour flips of the red-black tree do to the shape, to the
 in-order sequence and to the memory.  Each fact is stated once for a side `s` and covers
 the two mirrored branches of the source.
 */
module RBRotate {
  import opened RBShape
  import opened Sides

  // ---------------------------------------------------------------- in-order sequences

  lemma RotateInorder<T>(s: Side, x: seq<T>, p: T, y: seq<T>, g: T, u: seq<T>)
    ensures Beside(s, Beside(s, x, p, y), g, u) == Beside(s, x, p, Beside(s, y, g, u))
  {
  }

  lemma DoubleInorder<T>(s: Side, x: seq<T>, p: T, a: seq<T>, n: T, b: seq<T>, g: T, u: seq<T>)
    ensures Beside(s, Beside(s, x, p, Beside(s, a, n, b)), g, u) == Beside(s, Beside(s, x, p, a), n, Beside(s, b, g, u))
  {
  }

  lemma RotateTreeInorder<T>(s: Side, g: RBNode<T>, gc: bool, p: RBNode<T>, pc: bool, gc': bool, pc': bool,
                             x: Tree<T>, y: Tree<T>, u: Tree<T>)
    ensures Inorder(Mk(s, g, gc, Mk(s, p, pc, x, y), u)) == Inorder(Mk(s, p, pc', x, Mk(s, g, gc', y, u)))
  {
    InorderMk(s, g, gc, Mk(s, p, pc, x, y), u);
    InorderMk(s, p, pc, x, y);
    InorderMk(s, p, pc', x, Mk(s, g, gc', y, u));
    InorderMk(s, g, gc', y, u);
    RotateInorder(s, Inorder(x), p, Inorder(y), g, Inorder(u));
  }

  /** `p` hangs on side `s` of `g`, and `n` on the other side of `p`. */
  ghost function Bent<T>(s: Side, g: RBNode<T>, gc: bool, p: RBNode<T>, pc: bool, n: RBNode<T>, nc: bool,
                         x: Tree<T>, a: Tree<T>, b: Tree<T>, u: Tree<T>): Tree<T> {
    Mk(s, g, gc, Mk(s, p, pc, x, Mk(s, n, nc, a, b)), u)
  }

  ghost function Straightened<T>(s: Side, g: RBNode<T>, gc: bool, p: RBNode<T>, pc: bool, n: RBNode<T>, nc: bool,
                                 x: Tree<T>, a: Tree<T>, b: Tree<T>, u: Tree<T>): Tree<T> {
    Mk(s, n, nc, Mk(s, p, pc, x, a), Mk(s, g, gc, b, u))
  }

  lemma DoubleTreeInorder<T>(s: Side, g: RBNode<T>, gc: bool, p: RBNode<T>, pc: bool, n: RBNode<T>, nc: bool,
                             gc': bool, pc': bool, nc': bool, x: Tree<T>, a: Tree<T>, b: Tree<T>, u: Tree<T>)
    ensures Inorder(Bent(s, g, gc, p, pc, n, nc, x, a, b, u)) == Inorder(Straightened(s, g, gc', p, pc', n, nc', x, a, b, u))
  {
    InorderMk(s, g, gc, Mk(s, p, pc, x, Mk(s, n, nc, a, b)), u);
    InorderMk(s, p, pc, x, Mk(s, n, nc, a, b));
    InorderMk(s, n, nc, a, b);
    InorderMk(s, n, nc', Mk(s, p, pc', x, a), Mk(s, g, gc', b, u));
    InorderMk(s, p, pc', x, a);
    InorderMk(s, g, gc', b, u);
    DoubleInorder(s, Inorder(x), p, Inorder(a), n, Inorder(b), g, Inorder(u));
  }

  // ---------------------------------------------------------------- memory

  /** `t` hangs under `par` now, its root painted `red`; the cells in `s` were written. */
  ghost predicate Moved<T>(m: Mem<T>, m': Mem<T>, t: Tree<T>, par: RBNode<T>, red: bool, s: set<RBNode<T>>) {
    t.Node? ==>
      && t.n in m && t.n in m' && m'[t.n] == m[t.n].(parent := par, red := red)
      && Nodes(t.left) !! s && Nodes(t.right) !! s
  }

  lemma RotateIs<T>(m: Mem<T>, m': Mem<T>, s: Side, g: RBNode<T>, gc: bool, p: RBNode<T>, pc: bool, gc': bool,
                    x: Tree<T>, xc: bool, y: Tree<T>, yc: bool, u: Tree<T>, par: RBNode?<T>, w: set<RBNode<T>>)
    requires Is(m, Mk(s, g, gc, Mk(s, p, pc, x, y), u), g, par)
    requires g in m && p in m && g in m' && p in m'
    requires m'[p] == m[p].SetKid(s.Flip(), g).(parent := par, red := gc)
    requires m'[g] == m[g].SetKid(s, y.Root()).(parent := p, red := gc')
    requires Changes(m, m', w) && Moved(m, m', x, p, xc, w) && Moved(m, m', y, g, yc, w) && Nodes(u) !! w
    ensures Is(m', Mk(s, p, gc, x.Paint(xc), Mk(s, g, gc', y.Paint(yc), u)), p, par)
  {
    assert Is(m, x, m[p].Kid(s), p) && Is(m, y, m[p].Kid(s.Flip()), p) && Is(m, u, m[g].Kid(s.Flip()), g) by {
      IsMk(m, s, g, gc, Mk(s, p, pc, x, y), u, g, par);
      IsMk(m, s, p, pc, x, y, p, g);
    }
    assert Is(m', x.Paint(xc), m[p].Kid(s), p) by { IsMoved(m, m', x, m[p].Kid(s), p, p, xc, w); }
    assert Is(m', y.Paint(yc), m[p].Kid(s.Flip()), g) by { IsMoved(m, m', y, m[p].Kid(s.Flip()), p, g, yc, w); }
    assert Is(m', u, m[g].Kid(s.Flip()), g) by { IsFrame(m, m', u, m[g].Kid(s.Flip()), g, w); }
    assert Is(m', Mk(s, g, gc', y.Paint(yc), u), g, p) by { IsMk(m', s, g, gc', y.Paint(yc), u, g, p); }
    IsMk(m', s, p, gc, x.Paint(xc), Mk(s, g, gc', y.Paint(yc), u), p, par);
  }

  lemma StraightenedIs<T>(m: Mem<T>, s: Side, g: RBNode<T>, gc: bool, p: RBNode<T>, pc: bool, n: RBNode<T>, nc: bool,
                          x: Tree<T>, a: Tree<T>, b: Tree<T>, u: Tree<T>, par: RBNode?<T>)
    requires g in m && p in m && n in m && m[n] == MkCell(s, par, nc, p, g)
    requires m[p].parent == n && m[p].red == pc && m[g].parent == n && m[g].red == gc
    requires Is(m, x, m[p].Kid(s), p) && Is(m, a, m[p].Kid(s.Flip()), p)
    requires Is(m, b, m[g].Kid(s), g) && Is(m, u, m[g].Kid(s.Flip()), g)
    ensures Is(m, Straightened(s, g, gc, p, pc, n, nc, x, a, b, u), n, par)
  {
    IsMk(m, s, p, pc, x, a, p, n);
    IsMk(m, s, g, gc, b, u, g, n);
    IsMk(m, s, n, nc, Mk(s, p, pc, x, a), Mk(s, g, gc, b, u), n, par);
  }

  lemma DoubleIs<T>(m: Mem<T>, m': Mem<T>, s: Side, g: RBNode<T>, p: RBNode<T>, n: RBNode<T>, gc: bool,
                    gc': bool, pc': bool, x: Tree<T>, a: Tree<T>, ac: bool, b: Tree<T>, bc: bool, u: Tree<T>, par: RBNode?<T>,
                    w: set<RBNode<T>>)
    requires g in m && p in m && n in m && g in m' && p in m' && n in m'
    requires Is(m, x, m[p].Kid(s), p) && Is(m, a, m[n].Kid(s), n) && Is(m, b, m[n].Kid(s.Flip()), n)
    requires Is(m, u, m[g].Kid(s.Flip()), g)
    requires m'[n] == MkCell(s, par, gc, p, g)
    requires m'[p] == m[p].SetKid(s.Flip(), a.Root()).(parent := n, red := pc')
    requires m'[g] == m[g].SetKid(s, b.Root()).(parent := n, red := gc')
    requires Changes(m, m', w) && Moved(m, m', a, p, ac, w) && Moved(m, m', b, g, bc, w) && Nodes(x) !! w && Nodes(u) !! w
    ensures Is(m', Straightened(s, g, gc', p, pc', n, gc, x, a.Paint(ac), b.Paint(bc), u), n, par)
  {
    assert Is(m', a.Paint(ac), m[n].Kid(s), p) by { IsMoved(m, m', a, m[n].Kid(s), n, p, ac, w); }
    assert Is(m', b.Paint(bc), m[n].Kid(s.Flip()), g) by { IsMoved(m, m', b, m[n].Kid(s.Flip()), n, g, bc, w); }
    assert Is(m', x, m[p].Kid(s), p) by { IsFrame(m, m', x, m[p].Kid(s), p, w); }
    assert Is(m', u, m[g].Kid(s.Flip()), g) by { IsFrame(m, m', u, m[g].Kid(s.Flip()), g, w); }
    StraightenedIs(m', s, g, gc', p, pc', n, gc, x, a.Paint(ac), b.Paint(bc), u, par);
  }

  ghost function MkCell<T>(s: Side, parent: RBNode?<T>, red: bool, near: RBNode?<T>, far: RBNode?<T>): Cell<T> {
    if s == L then Cell(parent, red, near, far) else Cell(parent, red, far, near)
  }
}
