/** Taking a node out of the AVL tree: its left child, its right child or its successor moves to its place. */
module KavlDetach {
  import opened ByteOrder
  import opened KavlShape
  import opened KavlRules
  import opened KavlInsert
  import opened KavlErase
  import opened KavlSearch
  import opened KavlMemory
  import opened KavlPaths
  import opened KavlLink
  import opened KavlUnlink
  import opened KavlTree
  import opened Sequences
  import opened Sides

  /** The path is in memory, and `t` hangs in its hole. */
  ghost predicate Stands(m: Mem, g: Path, t: Tree) {
    FIs(m, g, t.Root()) && Is(m, t) && Apart(g, t)
  }

  lemma StandsIs(m: Mem, g: Path, t: Tree)
    ensures Stands(m, g, t) <==> FIs(m, g, t.Root()) && Is(m, t) && Apart(g, t)
  {
  }

  // ---------------------------------------------------------------- unlinking

  /** `path[d-1]->p[dir[d-1]] = v` */
  method SetLast(tree: Kavl, path: array<Elem?>, dir: array<Side>, d: nat, v: Elem?, ghost c: Path)
    requires tree.Synced() == true && c != [] && d == |c| && OnPath(path[..], c) == true && Turns(dir[..], c, 0, d) == true
    requires LastNode(c) != null && LastNode(c) in tree.mem
    modifies tree`mem, tree.mem.Keys
    ensures tree.Synced() == true && tree.mem == old(tree.mem)[LastNode(c) := old(tree.mem)[LastNode(c)].SetKid(c[|c| - 1].side, v)]
  {
    LastNodeIs(c);
    hide *;
    OnPathAt(path[..], c, d - 1);
    TurnsAt(dir[..], c, 0, d, d - 1);
    tree.SetKid(path[d - 1], dir[d - 1], v);
  }

  lemma LastNodeIs(c: Path)
    requires c != []
    ensures LastNode(c) == c[|c| - 1].n
  {
  }

  /** There is no right child: the left one moves up. */
  method UnlinkNode(tree: Kavl, p: Elem, path: array<Elem?>, dir: array<Side>, d: nat, ghost c: Path, ghost t: Tree)
    requires tree.Synced() == true && FIs(tree.mem, c, p) == true && Is(tree.mem, t) == true && Apart(c, t) == true
    requires t.Node? && t.n == p && t.right == Leaf
    requires c != [] && d == |c| && OnPath(path[..], c) == true && Turns(dir[..], c, 0, d) == true
    modifies tree`mem, tree.mem.Keys
    ensures tree.Synced() == true && tree.mem.Keys == old(tree.mem.Keys)
    ensures FIs(tree.mem, c, t.left.Root()) == true && Is(tree.mem, t.left) == true
  {
    ghost var m := tree.mem;
    hide *;
    NodeReadsNode(m, t);
    tree.Fields(p);
    LoseRoot(m, c, t);
    SetLast(tree, path, dir, d, p.left, c);
  }

  lemma NodeReadsNode(m: Mem, t: Tree)
    requires Is(m, t) == true && t.Node?
    ensures t.n in m && m[t.n] == t.Image() && m[t.n].left == t.left.Root() && m[t.n].right == t.right.Root()
    ensures m[t.n].balance == t.b && m[t.n].size == t.z && Is(m, t.left) == true && Is(m, t.right) == true
  {
  }

  /** The left child takes the place of the node. */
  lemma LoseRoot(m: Mem, c: Path, t: Tree)
    requires FIs(m, c, t.Root()) == true && Is(m, t) == true && Apart(c, t) == true && t.Node? && c != []
    ensures t.Root() == t.n && LastNode(c) != null && LastNode(c) in m
    ensures var m' := m[LastNode(c) := m[LastNode(c)].SetKid(c[|c| - 1].side, t.left.Root())];
      FIs(m', c, t.left.Root()) == true && Is(m', t.left) == true && m'.Keys == m.Keys
  {
    hide FIs, Is, FDistinct, Distinct, FNodes, Nodes;
    LastIn(m, c, t.n);
    IsNear(m, t, L);
    DistinctNear(t, L);
    var m' := m[LastNode(c) := m[LastNode(c)].SetKid(c[|c| - 1].side, t.left.Root())];
    RehangAt(m, m', c, t.n, t.left.Root());
    IsFrame(m, m', t.left, {LastNode(c)});
  }

  /** What unlinking must leave: the path to the hole, and the rest of the subtree in it. */
  ghost predicate Unlinked(m: Mem, path: seq<Elem?>, dir: seq<Side>, d: nat, c: Path, t: Tree)
    requires t.Node? && t.right.Node?
  {
    && FIs(m, c + Mid(t), Min(t.right).right.Root()) && Is(m, Min(t.right).right)
    && OnPath(path, c + Mid(t)) && Turns(dir, c + Mid(t), 0, d)
  }

  /** The right child has no left child: it takes the place of p. */
  method UnlinkNext(tree: Kavl, p: Elem, path: array<Elem?>, dir: array<Side>, d0: nat, ghost c: Path, ghost t: Tree) returns (d: nat)
    requires tree.Synced() == true && FIs(tree.mem, c, p) == true && Is(tree.mem, t) == true && Apart(c, t) == true
    requires t.Node? && t.n == p && t.right.Node? && t.right.left == Leaf
    requires c != [] && d0 == |c| < path.Length == dir.Length && OnPath(path[..], c) == true && Turns(dir[..], c, 0, d0) == true
    modifies tree`mem, tree.mem.Keys, path, dir
    ensures tree.Synced() == true && tree.mem.Keys == old(tree.mem.Keys) && Unlinked(tree.mem, path[..], dir[..], d, c, t) == true
  {
    ghost var m := tree.mem;
    hide *;
    NodeReadsNode(m, t);
    NodeReadsNode(m, t.right);
    FallsApart(m, c, t);
    SpineNone(t.right);
    NextOnly(t);
    tree.Fields(p);
    var q := p.right;
    ghost var k := Cut(c, p, [], q, t.left, t.right.right);
    SeparateStill(k, q, q, q, 0);
    TakePlace(tree, q, p.left, p.balance, p.size - 1, k);
    PiecesPath(tree.mem, k, q, q);
    SetLast(tree, path, dir, d0, q, c);
    Kavl.Push(path, dir, q, R, d0, d0, c, 0, Frame(R, q, t.b, t.z - 1, t.left));
    d := d0 + 1;
    NextFits(tree.mem, path[..], dir[..], d, c, t);
  }

  /** The node r takes over the left child, the balance and the size of the node that goes. */
  method TakePlace(tree: Kavl, r: Elem, left: Elem?, balance: int, size: int, ghost k: Cut)
    requires tree.Synced() == true && Pieces(tree.mem, k) == true && Separate(k, r) == true && r in tree.mem
    modifies tree`mem, r
    ensures tree.Synced() == true && tree.mem.Keys == old(tree.mem.Keys) && Pieces(tree.mem, k) == true
    ensures tree.mem[r] == Cell(left, old(tree.mem)[r].right, balance, size)
  {
    hide *;
    CellLeft(tree.mem[r], left);
    PiecesMoved(tree.mem, k, r, tree.mem[r].SetKid(L, left));
    tree.SetKid(r, L, left);
    PiecesMoved(tree.mem, k, r, tree.mem[r].(balance := balance));
    tree.SetBalance(r, balance);
    PiecesMoved(tree.mem, k, r, tree.mem[r].(size := size));
    tree.SetSize(r, size);
  }

  lemma CellLeft(c: Cell, v: Elem?)
    ensures c.SetKid(L, v) == c.(left := v)
  {
  }

  lemma NextFits(m: Mem, path: seq<Elem?>, dir: seq<Side>, d: nat, c: Path, t: Tree)
    requires t.Node? && t.right.Node? && t.right.left == Leaf
    requires var q := t.right.n;
      && Pieces(m, Cut(c, q, [], q, t.left, t.right.right)) == true && q in m && m[q] == Cell(t.left.Root(), t.right.right.Root(), t.b, t.z - 1)
    requires var f := Frame(R, t.right.n, t.b, t.z - 1, t.left); OnPath(path, c + [f]) == true && Turns(dir, c + [f], 0, d) == true
    ensures Unlinked(m, path, dir, d, c, t) == true
  {
    NextOnly(t);
    hide FIs, Is, OnPath, Turns, Mid, Min;
    PiecesEmpty(m, Cut(c, t.right.n, [], t.right.n, t.left, t.right.right), t.right.right.Root());
    FitsAgain(m, c, t);
  }

  lemma PiecesEmpty(m: Mem, k: Cut, y: Elem?)
    requires Pieces(m, k) && k.s == []
    ensures Pieces(m, k.(s := Counted([], 0, 0, -1), y := y))
  {
    assert Counted([], 0, 0, -1) == [];
  }

  // ---------------------------------------------------------------- unlinking by way of the leftmost node

  ghost predicate AllLeft(dir: seq<Side>, n: nat) {
    n <= |dir| && forall j :: 0 <= j < n ==> dir[j] == L
  }

  /** The walk to the left below `u0` has passed the frames `a` and stands at `u`. */
  ghost predicate Walked(u0: Tree, a: Path, u: Tree) {
    u0.Node? && u.Node? && Spine(u0) == a + Spine(u) && Min(u0) == Min(u)
  }

  lemma WalkedStart(u: Tree)
    requires u.Node?
    ensures Walked(u, [], u) == true
  {
    assert [] + Spine(u) == Spine(u);
  }

  lemma WalkedStep(u0: Tree, a: Path, u: Tree)
    requires Walked(u0, a, u) == true && u.left.Node?
    ensures Walked(u0, a + [Down(u, L)], u.left) == true && Down(u, L).n == u.n && |a| < |Spine(u0)|
  {
    SpineMore(u);
    hide Spine, Min;
    Assoc(a, [Down(u, L)], Spine(u.left));
  }

  lemma WalkedEnd(u0: Tree, a: Path, u: Tree)
    requires Walked(u0, a, u) == true && u.left == Leaf
    ensures u0.Node? && a == Spine(u0) && u == Min(u0)
  {
    SpineNone(u);
    assert a + [] == a;
  }

  /** One more node on the stretch of the path that starts at `d0`. */
  method PushLeft(path: array<Elem?>, dir: array<Side>, d0: nat, d: nat, p: Elem, ghost a: Path, ghost f: Frame)
    requires d0 + |a| == d < path.Length == dir.Length && OnPath(path[d0..], a) == true && AllLeft(dir[d0..], |a|) == true && f.n == p
    modifies path, dir
    ensures OnPath(path[d0..], a + [f]) == true && AllLeft(dir[d0..], |a| + 1) == true
    ensures path[..d0] == old(path[..])[..d0] && dir[..d0] == old(dir[..])[..d0]
  {
    ghost var (x, y) := (path[d0..], dir[d0..]);
    OnPathStep(x, a, f);
    dir[d] := L;
    path[d] := p;
    assert path[d0..] == x[|a| := p] && dir[d0..] == y[|a| := L];
  }

  /** The inner loop of kavl_erase: down to the leftmost node r and the node q above it. */
  method WalkSpine(tree: Kavl, q0: Elem, path: array<Elem?>, dir: array<Side>, d0: nat, ghost u0: Tree) returns (q: Elem, r: Elem, d: nat)
    requires tree.Synced() == true && Is(tree.mem, u0) == true && u0.Node? && u0.n == q0 && u0.left.Node?
    requires d0 + |Spine(u0)| <= path.Length == dir.Length
    modifies path, dir
    ensures d == d0 + |Spine(u0)| && r == Min(u0).n && q == LastNode(Spine(u0))
    ensures OnPath(path[d0..], Spine(u0)) == true && AllLeft(dir[d0..], |Spine(u0)|) == true
    ensures path[..d0] == old(path[..])[..d0] && dir[..d0] == old(dir[..])[..d0]
  {
    hide *;
    q, d := q0, d0;
    ghost var a: Path, u := [], u0;
    ghost var (x, y) := (path[..d0], dir[..d0]);
    WalkedStart(u0);
    OnPathNone(path[d0..]);
    AllLeftNone(dir[d0..]);
    while true
      invariant Walked(u0, a, u) == true && u.Node? && u.n == q && u.left.Node? && Is(tree.mem, u) == true
      invariant d == d0 + |a| && OnPath(path[d0..], a) == true && AllLeft(dir[d0..], |a|) == true
      invariant path[..d0] == x && dir[..d0] == y
      decreases u
    {
      WalkedStep(u0, a, u);
      PushLeft(path, dir, d0, d, q, a, Down(u, L));
      a, d := a + [Down(u, L)], d + 1;
      NodeReadsNode(tree.mem, u);
      NodeReadsNode(tree.mem, u.left);
      RootIs(u.left);
      tree.Fields(q);
      r := q.left;
      tree.Fields(r);
      u := u.left;
      RootNull(u.left);
      if r.left == null {
        break;
      }
      q := r;
    }
    WalkedEnd(u0, a, u);
    LastNodeIs(a);
  }

  lemma AllLeftNone(dir: seq<Side>)
    ensures AllLeft(dir, 0) == true
  {
  }

  /** The pieces after the leftmost node `mn` of the right subtree of `t` was put in the place of its root. */
  ghost function MovedCut(c: Path, t: Tree): Cut
    requires t.Node? && t.right.Node?
  {
    Cut(c, Min(t.right).n, Spine(t.right), Min(t.right).right.Root(), t.left, Min(t.right).right)
  }

  /** The pieces are as after the move, and `mn` stores what belongs there. */
  ghost predicate Moved(m: Mem, c: Path, t: Tree)
    requires t.Node? && t.right.Node?
  {
    && Pieces(m, MovedCut(c, t)) && Separate(MovedCut(c, t), Min(t.right).n) && Min(t.right).n in m
    && m[Min(t.right).n] == Cell(t.left.Root(), t.right.Root(), t.b, t.z - 1)
  }

  lemma MovedIs(m: Mem, c: Path, t: Tree)
    requires t.Node? && t.right.Node?
    ensures Moved(m, c, t) <==>
      && Pieces(m, MovedCut(c, t)) && Separate(MovedCut(c, t), Min(t.right).n) && Min(t.right).n in m
      && m[Min(t.right).n] == Cell(t.left.Root(), t.right.Root(), t.b, t.z - 1)
    ensures MovedCut(c, t) == Cut(c, Min(t.right).n, Spine(t.right), Min(t.right).right.Root(), t.left, Min(t.right).right)
  {
  }

  /** The links and fields of r, and the link to it. */
  method MoveMin(tree: Kavl, p: Elem, q: Elem, r: Elem, path: array<Elem?>, dir: array<Side>, e: nat, ghost c: Path, ghost t: Tree)
    requires tree.Synced() == true && FIs(tree.mem, c, p) == true && Is(tree.mem, t) == true && Apart(c, t) == true
    requires t.Node? && t.n == p && t.right.Node? && t.right.left.Node? && r == Min(t.right).n && q == LastNode(Spine(t.right))
    requires c != [] && e == |c| && OnPath(path[..], c) == true && Turns(dir[..], c, 0, e) == true
    modifies tree`mem, tree.mem.Keys
    ensures tree.Synced() == true && tree.mem.Keys == old(tree.mem.Keys) && Moved(tree.mem, c, t) == true
  {
    ghost var m := tree.mem;
    hide *;
    FallsApart(m, c, t);
    SpineLast(t.right);
    RootIs(t);
    ghost var mn := Min(t.right);
    ghost var k := Cut(c, p, Spine(t.right), mn.n, t.left, mn.right);
    Relink(tree, p, q, r, k, t);
    SeparateStill(k, r, r, mn.right.Root(), -1);
    PiecesPath(tree.mem, k.(y := mn.right.Root()), r, r);
    SetLast(tree, path, dir, e, r, c);
    MovedIs(tree.mem, c, t);
  }

  /** The leftmost node of the right subtree takes the place of p. */
  method UnlinkMin(tree: Kavl, p: Elem, path: array<Elem?>, dir: array<Side>, e: nat, ghost c: Path, ghost t: Tree) returns (d: nat)
    requires tree.Synced() == true && FIs(tree.mem, c, p) == true && Is(tree.mem, t) == true && Apart(c, t) == true
    requires t.Node? && t.n == p && t.right.Node? && t.right.left.Node?
    requires c != [] && e == |c| && e + 1 + |Spine(t.right)| <= path.Length == dir.Length
    requires OnPath(path[..], c) == true && Turns(dir[..], c, 0, e) == true
    modifies tree`mem, tree.mem.Keys, path, dir
    ensures tree.Synced() == true && tree.mem.Keys == old(tree.mem.Keys) && Unlinked(tree.mem, path[..], dir[..], d, c, t) == true
  {
    hide *;
    NodeReadsNode(tree.mem, t);
    RootIs(t.right);
    tree.Fields(p);
    var q, r;
    q, r, d := RememberMin(tree, p.right, path, dir, e, c, t);
    ghost var (ps, tail, ds) := (path[..], path[e + 1..], dir[..]);
    PathPrefix(ps, ds, c, Mid(t), d);
    MoveMin(tree, p, q, r, path, dir, e, c, t);
    assert path[..] == ps && path[e + 1..] == tail && dir[..] == ds;
    FinishMin(tree, path, dir, e, r, d, c, t);
  }

  /** The path as it will be: the slot `e` for r, and the spine above it. */
  method RememberMin(tree: Kavl, q0: Elem, path: array<Elem?>, dir: array<Side>, e: nat, ghost c: Path, ghost t: Tree)
      returns (q: Elem, r: Elem, d: nat)
    requires tree.Synced() == true && t.Node? && t.right.Node? && t.right.left.Node? && Is(tree.mem, t.right) == true && t.right.n == q0
    requires e == |c| && e + 1 + |Spine(t.right)| <= path.Length == dir.Length
    requires OnPath(path[..], c) == true && Turns(dir[..], c, 0, e) == true
    modifies path, dir
    ensures r == Min(t.right).n && q == LastNode(Spine(t.right)) && d == e + 1 + |Spine(t.right)|
    ensures OnPath(path[..], c + Mid(t)) == true && Turns(dir[..], c + Mid(t), 0, d) == true
    ensures OnPath(path[e + 1..], Spine(t.right)) == true
  {
    ghost var (x, y) := (path[..], dir[..]);
    hide *;
    q, r, d := WalkSpine(tree, q0, path, dir, e + 1, t.right);
    StretchKept(x, path[..], y, dir[..], c, e);
    FillSlot(path, dir, e, r, c, t);
  }

  lemma PathPrefix(path: seq<Elem?>, dir: seq<Side>, c: Path, more: Path, d: nat)
    requires OnPath(path, c + more) == true && Turns(dir, c + more, 0, d) == true
    ensures OnPath(path, c) == true && Turns(dir, c, 0, |c|) == true
  {
    forall j | 0 <= j < |c|
      ensures path[j] == c[j].n && dir[j] == c[j].side
    {
      assert (c + more)[j] == c[j] && dir[j] == (c + more)[0 + j].side;
    }
  }

  /** The spine is counted, and the pieces fit again. */
  method FinishMin(tree: Kavl, path: array<Elem?>, dir: array<Side>, e: nat, r: Elem, d: nat, ghost c: Path, ghost t: Tree)
    requires t.Node? && t.right.Node? && t.right.left.Node? && tree.Synced() == true && Moved(tree.mem, c, t) == true && r == Min(t.right).n
    requires d == e + 1 + |Spine(t.right)| && e + 1 <= path.Length && OnPath(path[e + 1..], Spine(t.right)) == true
    requires OnPath(path[..], c + Mid(t)) == true && Turns(dir[..], c + Mid(t), 0, d) == true
    modifies tree`mem, tree.mem.Keys
    ensures tree.Synced() == true && tree.mem.Keys == old(tree.mem.Keys) && Unlinked(tree.mem, path[..], dir[..], d, c, t) == true
  {
    hide *;
    MovedIs(tree.mem, c, t);
    CountMoved(tree, path, e + 1, d - (e + 1), r, MovedCut(c, t));
    NextCounted(t);
    FitsAgain(tree.mem, c, t);
    UnlinkedIs(tree.mem, path[..], dir[..], d, c, t);
  }

  /** `r->p[0] = p->p[0], q->p[0] = r->p[1], r->p[1] = p->p[1]` and what r stores. */
  method Relink(tree: Kavl, p: Elem, q: Elem, r: Elem, ghost k: Cut, ghost t: Tree)
    requires tree.Synced() == true && Pieces(tree.mem, k) == true && Separate(k, r) == true && k.s != [] && q == LastNode(k.s)
    requires k.s[|k.s| - 1].side == L && t.Node? && p in tree.mem && tree.mem[p] == t.Image() && r in tree.mem && p != r && k.l == t.left
    requires tree.mem[r].right == k.h.Root()
    modifies tree`mem, tree.mem.Keys
    ensures tree.Synced() == true && tree.mem.Keys == old(tree.mem.Keys) && Pieces(tree.mem, k.(y := k.h.Root())) == true
    ensures r in tree.mem && tree.mem[r] == Cell(t.left.Root(), t.right.Root(), t.b, t.z - 1)
  {
    ImageIs(t);
    hide *;
    tree.Fields(p);
    tree.Fields(r);
    var right := p.right;
    var low := r.right;
    TakePlace(tree, r, p.left, p.balance, p.size - 1, k);
    PiecesSpine(tree.mem, k, r, low);
    tree.SetKid(q, L, low);
    SeparateStill(k, r, null, low, 0);
    CellRight(tree.mem[r], right);
    PiecesMoved(tree.mem, k.(y := low), r, tree.mem[r].SetKid(R, right));
    tree.SetKid(r, R, right);
  }

  lemma ImageIs(t: Tree)
    requires t.Node?
    ensures t.Image() == Cell(t.left.Root(), t.right.Root(), t.b, t.z)
  {
  }

  lemma CellRight(c: Cell, v: Elem?)
    ensures c.SetKid(R, v) == c.(right := v)
  {
  }

  /** The slot that was kept free on the path. */
  method FillSlot(path: array<Elem?>, dir: array<Side>, e: nat, r: Elem, ghost c: Path, ghost t: Tree)
    requires t.Node? && t.right.Node? && r == Min(t.right).n && |c| == e && e + 1 + |Spine(t.right)| <= path.Length == dir.Length
    requires OnPath(path[..], c) == true && Turns(dir[..], c, 0, e) == true
    requires OnPath(path[e + 1..], Spine(t.right)) == true && AllLeft(dir[e + 1..], |Spine(t.right)|) == true
    modifies path, dir
    ensures OnPath(path[..], c + Mid(t)) == true && Turns(dir[..], c + Mid(t), 0, e + 1 + |Spine(t.right)|) == true
    ensures OnPath(path[e + 1..], Spine(t.right)) == true
  {
    ghost var (x, y) := (path[..], dir[..]);
    SlotPath(x, y, path[e + 1..], dir[e + 1..], e, c, t);
    hide *;
    path[e] := r;
    dir[e] := R;
    assert path[..] == x[e := r] && dir[..] == y[e := R];
    assert path[e + 1..] == x[e + 1..];
  }

  lemma SlotPath(x: seq<Elem?>, y: seq<Side>, x1: seq<Elem?>, y1: seq<Side>, e: nat, c: Path, t: Tree)
    requires t.Node? && t.right.Node? && |c| == e && e + 1 + |Spine(t.right)| <= |x| == |y|
    requires x1 == x[e + 1..] && y1 == y[e + 1..]
    requires OnPath(x, c) == true && Turns(y, c, 0, e) == true && OnPath(x1, Spine(t.right)) == true && AllLeft(y1, |Spine(t.right)|) == true
    ensures OnPath(x[e := Min(t.right).n], c + Mid(t)) == true && Turns(y[e := R], c + Mid(t), 0, e + 1 + |Spine(t.right)|) == true
  {
    MidIs(t);
    hide Mid, Min, Spine;
    var (g, x', y') := (c + Mid(t), x[e := Min(t.right).n], y[e := R]);
    forall j | 0 <= j < |g|
      ensures x'[j] == g[j].n && y'[j] == g[j].side
    {
      if j > e {
        assert x'[j] == x1[j - e - 1] && y'[j] == y1[j - e - 1];
        assert g[j] == Mid(t)[1 + (j - e - 1)];
      } else if j < e {
        assert g[j] == c[j];
      }
    }
  }

  /** The loop that counts the nodes of the spine down. */
  method CountMoved(tree: Kavl, path: array<Elem?>, off: nat, n: nat, r: Elem, ghost k: Cut)
    requires tree.Synced() == true && Pieces(tree.mem, k) == true && Separate(k, r) == true && r in tree.mem && n == |k.s|
    requires off <= path.Length && OnPath(path[off..], k.s) == true
    modifies tree`mem, tree.mem.Keys
    ensures tree.Synced() == true && tree.mem.Keys == old(tree.mem.Keys) && r in tree.mem && tree.mem[r] == old(tree.mem)[r]
    ensures Pieces(tree.mem, k.(s := Counted(k.s, 0, |k.s|, -1))) == true
  {
    ghost var m := tree.mem;
    assert FIs(m, k.s, k.y) && FDistinct(k.s);
    hide *;
    tree.CountPath(path, off, 0, n, -1, k.s, k.y);
    PiecesCounted(m, tree.mem, k, r, Counted(k.s, 0, |k.s|, -1));
  }

  lemma UnlinkedIs(m: Mem, path: seq<Elem?>, dir: seq<Side>, d: nat, c: Path, t: Tree)
    requires t.Node? && t.right.Node?
    requires FIs(m, c + Mid(t), Min(t.right).right.Root()) == true && Is(m, Min(t.right).right) == true
    requires OnPath(path, c + Mid(t)) == true && Turns(dir, c + Mid(t), 0, d) == true
    ensures Unlinked(m, path, dir, d, c, t) == true
  {
  }

  lemma StretchKept(x: seq<Elem?>, x': seq<Elem?>, y: seq<Side>, y': seq<Side>, c: Path, e: nat)
    requires OnPath(x, c) == true && Turns(y, c, 0, e) == true && e < |x| == |x'| && e < |y| == |y'|
    requires x'[..e + 1] == x[..e + 1] && y'[..e + 1] == y[..e + 1]
    ensures OnPath(x', c) == true && Turns(y', c, 0, e) == true
  {
    assert |c| == e;
    forall i | 0 <= i < e
      ensures x'[i] == c[i].n && y'[i] == c[i].side
    {
      assert x'[i] == x'[..e + 1][i] && y'[i] == y'[..e + 1][i];
    }
  }

  /** The three ways of unlinking. */
  method Unlink(tree: Kavl, p: Elem, path: array<Elem?>, dir: array<Side>, d0: nat, ghost c: Path, ghost t: Tree) returns (d: nat)
    requires tree.Synced() == true && Stands(tree.mem, c, t) == true && t.Node? && t.n == p && c != [] && d0 == |c|
    requires |c| + H(t) < path.Length == dir.Length && OnPath(path[..], c) == true && Turns(dir[..], c, 0, d0) == true
    modifies tree`mem, tree.mem.Keys, path, dir
    ensures tree.Synced() == true && tree.mem.Keys == old(tree.mem.Keys)
    ensures FIs(tree.mem, c + Left(t).0, Left(t).1.Root()) == true && Is(tree.mem, Left(t).1) == true
    ensures OnPath(path[..], c + Left(t).0) == true && Turns(dir[..], c + Left(t).0, 0, d) == true
  {
    hide *;
    StandsIs(tree.mem, c, t);
    RootIs(t);
    NodeReadsNode(tree.mem, t);
    tree.Fields(p);
    RootNull(t.right);
    LeftIs(c, t);
    d := d0;
    if p.right == null {
      UnlinkNode(tree, p, path, dir, d0, c, t);
    } else {
      HeightRoom(t);
      NodeReadsNode(tree.mem, t.right);
      RootIs(t.right);
      tree.Fields(p.right);
      RootNull(t.right.left);
      if p.right.left == null {
        d := UnlinkNext(tree, p, path, dir, d0, c, t);
      } else {
        d := UnlinkMin(tree, p, path, dir, d0, c, t);
      }
      UnlinkedOpen(tree.mem, path[..], dir[..], d, c, t);
    }
  }

  lemma UnlinkedOpen(m: Mem, path: seq<Elem?>, dir: seq<Side>, d: nat, c: Path, t: Tree)
    requires t.Node? && t.right.Node? && Unlinked(m, path, dir, d, c, t) == true
    ensures FIs(m, c + Mid(t), Min(t.right).right.Root()) == true && Is(m, Min(t.right).right) == true
    ensures OnPath(path, c + Mid(t)) == true && Turns(dir, c + Mid(t), 0, d) == true
  {
  }

  lemma LeftIs(c: Path, t: Tree)
    requires t.Node?
    ensures t.right == Leaf ==> Left(t) == ([], t.left) && c + Left(t).0 == c
    ensures t.right != Leaf ==> t.right.Node? && Left(t) == (Mid(t), Min(t.right).right)
  {
  }

  lemma HeightRoom(t: Tree)
    requires t.Node? && t.right.Node?
    ensures 1 + |Spine(t.right)| < H(t)
  {
    SpineLength(t.right);
  }
}
