/** The AVL tree with subtree sizes, on real nodes: search, rotations and insertion. */
module KavlTree {
  import opened ByteOrder
  import opened KavlShape
  import opened KavlRules
  import opened KavlInsert
  import opened KavlErase
  import opened KavlSearch
  import opened KavlMemory
  import opened KavlPaths
  import opened KavlLink
  import opened Sides

  class Kavl {
    var root: Elem?
    ghost var mem: Mem
    ghost var shape: Tree

    constructor ()
      ensures Valid() && shape == Leaf && mem == map[]
    {
      root, mem, shape := null, map[], Leaf;
      new;
      LeafSound();
    }

    /** `mem` is what the nodes of the tree hold now. */
    ghost predicate Synced()
      reads this`mem, mem.Keys
    {
      forall n <- mem.Keys ::
        n.left == mem[n].left && n.right == mem[n].right && n.balance == mem[n].balance && n.size == mem[n].size
    }

    /** The nodes form a search tree with exact balances and sizes. */
    ghost predicate Valid()
      reads this, mem.Keys
    {
      Synced() && root == shape.Root() && Is(mem, shape) && mem.Keys == Nodes(shape) && Sound(shape)
    }

    lemma Fields(n: Elem)
      requires n in mem && Synced()
      ensures n.left == mem[n].left && n.right == mem[n].right && n.balance == mem[n].balance && n.size == mem[n].size
      ensures forall s: Side :: n.Kid(s) == mem[n].Kid(s)
    {
    }

    /** What a valid tree has, one fact at a time. */
    lemma Opened()
      requires Valid()
      ensures Synced() == true && Sound(shape) == true && Is(mem, shape) == true && root == shape.Root() && mem.Keys == Nodes(shape)
    {
    }

    // -------------------------------------------------------------- single writes

    method SetKid(n: Elem, s: Side, v: Elem?)
      requires n in mem && Synced()
      modifies this`mem, n
      ensures Synced() && mem == old(mem)[n := old(mem)[n].SetKid(s, v)]
    {
      if s == L {
        n.left := v;
      } else {
        n.right := v;
      }
      mem := mem[n := mem[n].SetKid(s, v)];
    }

    method SetBalance(n: Elem, b: int)
      requires n in mem && Synced()
      modifies this`mem, n
      ensures Synced() && mem == old(mem)[n := old(mem)[n].(balance := b)]
    {
      n.balance := b;
      mem := mem[n := mem[n].(balance := b)];
    }

    method SetSize(n: Elem, z: int)
      requires n in mem && Synced()
      modifies this`mem, n
      ensures Synced() && mem == old(mem)[n := old(mem)[n].(size := z)]
    {
      n.size := z;
      mem := mem[n := mem[n].(size := z)];
    }

    /** kavl_size */
    method SizeOf(p: Elem?) returns (z: int)
      requires Synced() && (p != null ==> p in mem)
      ensures z == if p == null then 0 else mem[p].size
    {
      z := if p == null then 0 else p.size;
    }

    // -------------------------------------------------------------- search

    method Find(x: Bytes) returns (p: Elem?, cnt: int)
      requires Valid()
      ensures p == Holder(Inorder(shape), x) && cnt == Rank(Inorder(shape), x)
    {
      p, cnt := root, 0;
      ghost var fs, t := [], shape;
      hide *;
      Opened();
      StartPlace(shape, x);
      while p != null
        invariant Place(shape, fs, t, x) == true && Is(mem, t) == true && p == t.Root() && cnt == |Before(fs)|
        decreases t
      {
        NodeReads(mem, t);
        Fields(p);
        PlaceStep(shape, fs, t, x);
        var cmp := LengthFirst(x, p.data);
        if cmp >= 0 {
          var z := SizeOf(p.left);
          cnt := cnt + z + 1;
        }
        if cmp < 0 {
          p := p.left;
          fs, t := fs + [Down(t, L)], t.left;
        } else if cmp > 0 {
          p := p.right;
          fs, t := fs + [Down(t, R)], t.right;
        } else {
          return;
        }
      }
      RootNull(t);
      PlaceNone(shape, fs, x);
    }

    // -------------------------------------------------------------- rotations

    /** The writes of kavl_rotate1. */
    method Rotate1Links(p: Elem, q: Elem, dir: Side)
      requires Synced() && Rot1Ready(mem, p, q, dir) == true
      modifies this`mem, p, q
      ensures Synced() && mem == Rot1Mem(old(mem), p, q, dir)
    {
      ghost var m := mem;
      hide *;
      Rot1Apart(m, p, q, dir);
      Fields(p);
      Fields(q);
      var sizeP := p.size;
      var b := q.Kid(dir);
      var z := SizeOf(b);
      ghost var m1, m2, m3 := Rot1Steps(m, p, q, dir, z);
      SetSize(p, p.size - (q.size - z));
      assert mem == m1;
      SetSize(q, sizeP);
      assert mem == m2;
      SetKid(p, dir.Flip(), b);
      assert mem == m3;
      SetKid(q, dir, p);
    }

    method Rotate1(p: Elem, dir: Side, ghost t: Tree) returns (q: Elem)
      requires Synced() && t.Node? && t.n == p && t.Near(dir.Flip()).Node? && Is(mem, t) && Distinct(t)
      modifies this`mem, mem.Keys
      ensures Synced() && q == t.Near(dir.Flip()).n && Only(old(mem), mem, {p, q}) && mem.Keys == old(mem).Keys && p in mem && q in mem && p != q
      ensures mem[q] == Rot1(t, dir, t.Near(dir.Flip()).b, t.b).Image() && mem[p] == Rot1(t, dir, t.Near(dir.Flip()).b, t.b).Near(dir).Image()
    {
      ghost var m := mem;
      Rot1Reads(m, t, dir);
      q := p.Kid(dir.Flip());
      hide *;
      Rotate1Links(p, q, dir);
      Rot1Cells(m, t, dir);
    }

    /** The sizes that kavl_rotate2 stores. */
    method Rotate2Sizes(p: Elem, q: Elem, r: Elem, sizeXDir: int)
      requires Synced() && p in mem && q in mem && r in mem && p != q && p != r && q != r
      modifies this`mem, p, q, r
      ensures Synced() && mem == Rot2Sizes(old(mem), p, q, r, sizeXDir)
    {
      hide Synced;
      Fields(p);
      Fields(q);
      var (pz, qz) := (p.size, q.size);
      SetSize(r, pz);
      SetSize(p, pz - (qz - sizeXDir));
      SetSize(q, qz - (sizeXDir + 1));
    }

    /** The links that kavl_rotate2 makes. */
    method Rotate2Kids(p: Elem, q: Elem, r: Elem, dir: Side)
      requires Synced() && p in mem && q in mem && r in mem && p != q && p != r && q != r
      modifies this`mem, p, q, r
      ensures Synced() && mem == Rot2Kids(old(mem), p, q, r, dir)
    {
      hide Synced;
      Fields(r);
      var opp := dir.Flip();
      var c := r.Kid(opp);
      SetKid(p, opp, r.Kid(dir));
      SetKid(r, dir, p);
      SetKid(q, dir, c);
      SetKid(r, opp, q);
    }

    method Rotate2Balances(p: Elem, q: Elem, r: Elem, dir: Side)
      requires Synced() && p in mem && q in mem && r in mem && p != q && p != r && q != r
      modifies this`mem, p, q, r
      ensures Synced() && mem == Rot2Balanced(old(mem), p, q, r, Rot2Balances(old(mem)[r].balance, dir).0, Rot2Balances(old(mem)[r].balance, dir).1)
    {
      hide Synced;
      Fields(r);
      var b1 := if dir == L then 1 else -1;
      if r.balance == b1 {
        SetBalance(q, 0);
        SetBalance(p, -b1);
      } else if r.balance == 0 {
        SetBalance(q, 0);
        SetBalance(p, 0);
      } else {
        SetBalance(q, b1);
        SetBalance(p, 0);
      }
      SetBalance(r, 0);
    }

    method Rotate2(p: Elem, dir: Side, ghost t: Tree) returns (r: Elem)
      requires Synced() && t.Node? && t.n == p && t.Near(dir.Flip()).Node? && t.Near(dir.Flip()).Near(dir).Node? && Is(mem, t) && Distinct(t)
      modifies this`mem, mem.Keys
      ensures Synced() && r == t.Near(dir.Flip()).Near(dir).n && Is(mem, Rot2(t, dir))
      ensures Only(old(mem), mem, {p, t.Near(dir.Flip()).n, r}) && mem.Keys == old(mem).Keys
    {
      ghost var m := mem;
      Rot2Reads(m, t, dir);
      Rot2Done(m, t, dir);
      Rot2Fields(m, t, dir);
      hide *;
      Fields(p);
      var q := p.Kid(dir.Flip());
      Fields(q);
      r := q.Kid(dir);
      Fields(r);
      var sizeXDir := SizeOf(r.Kid(dir));
      Rotate2Sizes(p, q, r, sizeXDir);
      Rotate2Kids(p, q, r, dir);
      Rotate2Balances(p, q, r, dir);
    }

    /** kavl_rotate1 at p, and then the balances of its child q and of p. */
    method Rotate1Balanced(p: Elem, dir: Side, qb: int, pb: int, ghost t: Tree) returns (q: Elem)
      requires Synced() && t.Node? && t.n == p && t.Near(dir.Flip()).Node? && Is(mem, t) && Distinct(t)
      modifies this`mem, mem.Keys
      ensures Synced() && q == t.Near(dir.Flip()).n && Is(mem, Rot1(t, dir, qb, pb)) && Only(old(mem), mem, {p, q}) && mem.Keys == old(mem).Keys
    {
      ghost var m := mem;
      hide *;
      Rot1Parts(t, dir, t.Near(dir.Flip()).b, t.b);
      q := Rotate1(p, dir, t);
      Rot1Done(m, mem, t, dir, qb, pb);
      SetBalance(q, qb);
      SetBalance(p, pb);
    }

    // -------------------------------------------------------------- insertion

    /** The rebalancing of an insertion at `bp`. */
    method Rebalance(bp: Elem, which: Side, ghost u: Tree) returns (r: Elem)
      requires Synced() && Tipped(u, which) && u.n == bp && u.Near(which.Flip()).Node? && u.Near(which.Flip()).b != 0
      requires Is(mem, u) && Distinct(u)
      modifies this`mem, mem.Keys
      ensures Synced() && Is(mem, Turn(u, which)) && r == Turn(u, which).Root() && Only(old(mem), mem, Nodes(u)) && mem.Keys == old(mem).Keys
    {
      ghost var m := mem;
      assert u.Node?;
      hide *;
      TurnIs(u, which);
      TurnNodes(u, which.Flip());
      RotRoots(u, which, 0, 0);
      RootReads(m, u, which.Flip());
      AwayIs(which);
      Fields(bp);
      var b1 := if which == L then 1 else -1;
      var q := bp.Kid(which.Flip());
      Fields(q);
      if q.balance == b1 {
        r := Rotate1Balanced(bp, which, 0, 0, u);
        OnlyMore(m, mem, {bp, r}, Nodes(u));
      } else {
        r := Rotate2(bp, which, u);
        OnlyMore(m, mem, {bp, q, r}, Nodes(u));
      }
    }

    /** The loops that add `d` to the sizes on a stretch of the path; `path` holds the frames from `off` on. */
    method CountPath(path: array<Elem?>, off: nat, lo: nat, hi: nat, d: int, ghost fs: Path, ghost hole: Elem?)
      requires Synced() == true && FIs(mem, fs, hole) == true && FDistinct(fs) == true && lo <= hi <= |fs|
      requires off <= path.Length && OnPath(path[off..], fs) == true
      modifies this`mem, mem.Keys
      ensures Synced() && FIs(mem, Counted(fs, lo, hi, d), hole) == true && Only(old(mem), mem, FNodes(fs)) == true
      ensures mem.Keys == old(mem).Keys
    {
      ghost var m, ps := mem, path[off..];
      hide *;
      CountedNone(fs, lo, d);
      OnlyNone(m, FNodes(fs));
      for i := lo to hi
        invariant Synced() == true && FIs(mem, Counted(fs, lo, i, d), hole) == true && mem.Keys == m.Keys
        invariant Only(m, mem, FNodes(fs)) == true && path[off..] == ps
      {
        OnPathAt(ps, fs, i);
        CountedStep(mem, fs, hole, lo, i, d);
        assert path[off + i] == ps[i];
        Fields(fs[i].n);
        OnlyStep(m, mem, fs[i].n, mem[fs[i].n].(size := fs[i].z + d), FNodes(fs));
        SetSize(path[off + i], path[off + i].size + d);
      }
    }

    /** The path is tilted from `k` up to `i`, and the rest is as it was in `m`. */
    ghost predicate Tilting(fs: Path, k: nat, i: nat, hole: Elem?, m: Mem)
      reads this`mem, mem.Keys
    {
      Synced() && FDistinct(fs) && FIs(mem, Tilted(fs, k, i), hole) && Only(m, mem, FNodes(fs)) && mem.Keys == m.Keys
    }

    lemma TiltingStart(fs: Path, k: nat, hole: Elem?)
      requires Synced() && FDistinct(fs) && FIs(mem, fs, hole)
      ensures Tilting(fs, k, k, hole, mem)
    {
      TiltedNone(fs, k);
    }

    lemma TiltingOpen(fs: Path, k: nat, i: nat, hole: Elem?, m: Mem)
      requires Tilting(fs, k, i, hole, m)
      ensures Synced() == true && FDistinct(fs) == true && FIs(mem, Tilted(fs, k, i), hole) == true
      ensures Only(m, mem, FNodes(fs)) == true && mem.Keys == m.Keys
    {
    }

    lemma TiltingClose(fs: Path, k: nat, i: nat, hole: Elem?, m: Mem)
      requires Synced() == true && FDistinct(fs) == true && FIs(mem, Tilted(fs, k, i), hole) == true
      requires Only(m, mem, FNodes(fs)) == true && mem.Keys == m.Keys
      ensures Tilting(fs, k, i, hole, m)
    {
    }

    /** The path through p goes on to `s`, where the subtree grew.  Returns what is there. */
    method TiltNode(p: Elem, s: Side, ghost fs: Path, ghost k: nat, ghost i: nat, ghost hole: Elem?, ghost m: Mem) returns (next: Elem?)
      requires Tilting(fs, k, i, hole, m) == true && k <= i < |fs| && p == Next(fs, i, hole) && s == fs[i].side
      modifies this`mem, mem.Keys
      ensures Tilting(fs, k, i + 1, hole, m) == true && mem.Keys == old(mem).Keys
      ensures next == Next(fs, i + 1, hole)
    {
      hide *;
      NextIs(fs, i, hole);
      NextIs(fs, i + 1, hole);
      TiltingOpen(fs, k, i, hole, m);
      TiltedStep(mem, fs, hole, k, i);
      AwayIs(s);
      Fields(p);
      OnlyStep(m, mem, p, mem[p].(balance := fs[i].b - Away(s)), FNodes(fs));
      if s == L {
        SetBalance(p, p.balance - 1);
      } else {
        SetBalance(p, p.balance + 1);
      }
      Fields(p);
      next := p.Kid(s);
      TiltingClose(fs, k, i + 1, hole, m);
    }

    /** The loop that updates the balances from `bp` down to the new leaf `x`. */
    method TiltPath(bp: Elem, x: Elem, stack: array<Side>, ghost fs: Path, ghost k: nat, ghost n: nat, ghost m: Mem)
      requires Tilting(fs, k, k, x, m) == true && x !in FNodes(fs)
      requires Turns(stack[..], fs, k, n) == true && k <= |fs| && bp == Next(fs, k, x)
      modifies this`mem, mem.Keys
      ensures Tilting(fs, k, |fs|, x, m) == true && mem.Keys == old(mem).Keys
    {
      ghost var turns := stack[..];
      hide *;
      var p: Elem?, top := bp, 0;
      ghost var i := k;
      while p != x
        invariant Tilting(fs, k, i, x, m) == true && stack[..] == turns && mem.Keys == old(mem).Keys
        invariant k + top == i <= |fs| && p == Next(fs, i, x) && 0 <= top
        decreases |fs| - i
      {
        TurnsNext(turns, fs, k, n, top, x);
        p := TiltNode(p, stack[top], fs, k, i, x, m);
        top, i := top + 1, i + 1;
      }
      TiltingOpen(fs, k, i, x, m);
      NextLast(fs, i, x);
    }

    /** The node p joins the path, which goes on to its side `which`. */
    static method Push(path: array<Elem?>, stack: array<Side>, p: Elem, which: Side, top: nat, len: nat,
        ghost fs: Path, ghost k: nat, ghost f: Frame)
      requires OnPath(path[..], fs) == true && Turns(stack[..], fs, k, top) == true && len == |fs| < path.Length && top < stack.Length
      requires f.n == p && f.side == which
      modifies path, stack
      ensures OnPath(path[..], fs + [f]) == true && Turns(stack[..], fs + [f], k, top + 1) == true
    {
      hide *;
      OnPathStep(path[..], fs, f);
      TurnsStep(stack[..], fs, k, top, f);
      ghost var (a, b) := (path[..], stack[..]);
      stack[top] := which;
      path[len] := p;
      assert path[..] == a[len := p] && stack[..] == b[top := which];
    }

    /** Finding the insertion location; the path is remembered in the two arrays. */
    method Descend(x: Bytes, path: array<Elem?>, stack: array<Side>)
        returns (p: Elem?, q: Elem?, which: Side, bp: Elem?, bq: Elem?, top: nat, len: nat, cnt: int, ghost fs: Path, ghost k: nat)
      requires Valid() && path.Length == stack.Length == MAX_DEPTH
      modifies path, stack
      ensures cnt == Rank(Inorder(shape), x) && p == Holder(Inorder(shape), x)
      ensures p == null ==>
        && Place(shape, fs, Leaf, x) && cnt == |Before(fs)| && Spot(fs, Leaf, k, bp, bq, q, which)
        && len == |fs| && OnPath(path[..], fs) && Turns(stack[..], fs, k, top)
    {
      hide *;
      Opened();
      StartPlace(shape, x);
      p, q, which, bp, bq, top, len, cnt := root, null, L, root, null, 0, 0, 0;
      ghost var t := shape;
      fs, k := [], 0;
      SpotStart(shape, which);
      OnPathNone(path[..]);
      TurnsNone(stack[..], fs);
      while p != null
        invariant Place(shape, fs, t, x) == true && Is(mem, t) == true && p == t.Root() && cnt == |Before(fs)|
        invariant Spot(fs, t, k, bp, bq, q, which) == true && len == |fs|
        invariant OnPath(path[..], fs) == true && Turns(stack[..], fs, k, top) == true
        decreases t
      {
        NodeReads(mem, t);
        Fields(p);
        PlaceStep(shape, fs, t, x);
        RoomBelow(shape, fs, t, x);
        var cmp := LengthFirst(x, p.data);
        if cmp >= 0 {
          var z := SizeOf(p.left);
          cnt := cnt + z + 1;
        }
        if cmp == 0 {
          return;
        }
        var s := if cmp > 0 then R else L;
        SpotStep(fs, t, k, bp, bq, q, which, s);
        NearIs(t, s);
        if p.balance != 0 {
          bq, bp, top := q, p, 0;
          TurnsNone(stack[..], fs);
          k := |fs|;
        }
        which := s;
        CellKid(mem[p], s);
        var next := p.Kid(which);
        TurnsLength(stack[..], fs, k, top);
        Push(path, stack, p, which, top, len, fs, k, Down(t, s));
        top, len := top + 1, len + 1;
        q, p := p, next;
        fs, t := fs + [Down(t, s)], t.Near(s);
      }
      RootNull(t);
      PlaceNone(shape, fs, x);
    }

    /** The new leaf below `q`, or at the root. */
    method Link(x: Elem, q: Elem?, which: Side, ghost fs: Path)
      requires Synced() && x !in mem && FIs(mem, fs, null) && FDistinct(fs) && root == Next(fs, 0, null)
      requires q == (if fs == [] then null else fs[|fs| - 1].n) && (fs != [] ==> which == fs[|fs| - 1].side)
      modifies this`mem, this`root, x, mem.Keys
      ensures Synced() && FIs(mem, fs, x) && Is(mem, NewLeaf(x)) && mem.Keys == old(mem.Keys) + {x} && root == Next(fs, 0, x) && x !in FNodes(fs)
    {
      ghost var m := mem;
      LinkIs(m, fs, x);
      hide FIs, Is, FDistinct;
      x.balance, x.size, x.left, x.right := 0, 1, null, null;
      mem := mem[x := Cell(null, null, 0, 1)];
      if q == null {
        root := x;
      } else {
        SetKid(q, which, x);
      }
    }

    /** The rebuilt subtree r takes the place of `bp` below `bq`, or at the root. */
    method Hang(bq: Elem?, bp: Elem, r: Elem?, ghost m: Mem, ghost above: Path, ghost u: Tree, ghost v: Tree)
      requires Synced() == true && FIs(m, above, u.Root()) == true && Apart(above, u) == true && Only(m, mem, Nodes(u)) == true
      requires Is(mem, v) == true && Nodes(v) <= Nodes(u) && u.Node? && bp == u.n && r == v.Root() && bq == LastNode(above)
      requires bq == null || root == Head(above, null)
      modifies this`mem, this`root, mem.Keys
      ensures Synced() && Is(mem, Fill(above, v)) == true && root == Fill(above, v).Root() && mem.Keys == old(mem.Keys)
    {
      hide *;
      RehungIs(m, mem, above, u, v);
      HungIs(mem, above, r);
      FillTopNode(above, v, root);
      if bq == null {
        root := r;
      } else {
        WhichStill(m, mem, above, u);
        Fields(bq);
        SetKid(bq, if bp != bq.left then R else L, r);
      }
    }

    /** The end of an insertion: rebalance at `bp`, if it is out of bounds now. */
    method Repair(bp: Elem, bq: Elem?, ghost fs: Path, ghost k: nat, ghost x: Elem)
      requires Synced() == true && FIs(mem, Tilted(Counted(fs, 0, |fs|, 1), k, |fs|), x) == true && Is(mem, NewLeaf(x)) == true
      requires Deepest(fs, k) == true && FAvl(fs, 0) == true && FDistinct(fs) == true && x !in FNodes(fs)
      requires k < |fs| && bp == fs[k].n && bq == (if k == 0 then null else fs[k - 1].n) && root == fs[0].n
      modifies this`mem, this`root, mem.Keys
      ensures Synced() && Is(mem, Inserted(fs, k, x)) == true && root == Inserted(fs, k, x).Root() && mem.Keys == old(mem.Keys)
    {
      hide *;
      ghost var m, cs := mem, Counted(fs, 0, |fs|, 1);
      AboveIs(fs, k, x);
      ghost var above, u := cs[..k], Grown(cs[k..], x);
      GrownMemory(m, fs, k, x);
      InsertedIs(fs, k, x);
      RootIs(u);
      NodeReads(m, u);
      Fields(bp);
      if -2 < bp.balance < 2 {
        IsFill(m, above, u);
        FillTopNode(above, u, root);
        return;
      }
      var which := if bp.balance < 0 then R else L;
      ApartIs(above, u);
      var r := Rebalance(bp, which, u);
      Hang(bq, bp, r, m, above, u, Turn(u, which));
    }

    /** What is known of the tree once its pieces fit again. */
    ghost method Settle(t: Tree)
      requires Synced() == true && Is(mem, t) == true && root == t.Root() && mem.Keys == Nodes(t) && Sound(t) == true
      modifies this`shape
      ensures Valid() && shape == t
    {
      shape := t;
    }

    /** Link `x` in the hole, count and tilt the path, and rebalance. */
    method Attach(x: Elem, q: Elem?, which: Side, bp: Elem?, bq: Elem?, path: array<Elem?>, stack: array<Side>, len: nat,
        ghost fs: Path, ghost k: nat, ghost top: nat)
      requires Valid() && x !in mem && Count(shape) < 0xFFFF_FFFF
      requires Place(shape, fs, Leaf, x.data) == true && Spot(fs, Leaf, k, bp, bq, q, which) == true
      requires len == |fs| && OnPath(path[..], fs) == true && Turns(stack[..], fs, k, top) == true
      modifies this, x, mem.Keys
      ensures Valid() && mem.Keys == old(mem.Keys) + {x} && Rank(old(Inorder(shape)), x.data) <= |old(Inorder(shape))|
      ensures Inorder(shape) == With(old(Inorder(shape)), x)
    {
      hide *;
      Opened();
      ghost var (t, m, cs) := (shape, mem, Counted(fs, 0, |fs|, 1));
      SpotIs(t, fs, k, bp, bq, q, which, x.data);
      StillApart(t, fs, x, m);
      Link(x, q, which, fs);
      if bp == null {
        NextIs(fs, 0, x);
        LoneSound(x);
        LeafMeasures();
        Settle(NewLeaf(x));
        return;
      }
      InsertSound(t, fs, k, x);
      CountedSame(fs, 1, k, x);
      ghost var m1 := mem;
      assert path[0..] == path[..];
      CountPath(path, 0, 0, len, 1, fs, x);
      LeafStays(m1, mem, x, FNodes(fs));
      ghost var m2 := mem;
      TiltingStart(cs, k, x);
      CountedTurns(stack[..], fs, 1, k, top);
      TiltPath(bp, x, stack, cs, k, top, m2);
      TiltingOpen(cs, k, |fs|, x, m2);
      LeafStays(m2, mem, x, FNodes(fs));
      Repair(bp, bq, fs, k, x);
      Settle(Inserted(fs, k, x));
    }

    /** kavl_insert: `x` itself if its key is new, or the node that has it; and the number of keys up to it. */
    method Insert(x: Elem) returns (r: Elem, cnt: int)
      requires Valid() && x !in mem && Count(shape) < 0xFFFF_FFFF
      modifies this, x, mem.Keys
      ensures Valid() && cnt == Rank(old(Inorder(shape)), x.data) <= |old(Inorder(shape))|
      ensures if Holder(old(Inorder(shape)), x.data) != null
              then r == Holder(old(Inorder(shape)), x.data) && shape == old(shape) && mem == old(mem)
              else r == x && Inorder(shape) == With(old(Inorder(shape)), x) && mem.Keys == old(mem.Keys) + {x}
    {
      var path, stack := new Elem?[MAX_DEPTH], new Side[MAX_DEPTH];
      var p, q, which, bp, bq, top, len;
      ghost var fs, k;
      p, q, which, bp, bq, top, len, cnt, fs, k := Descend(x.data, path, stack);
      if p != null {
        RankBound(Inorder(shape), x.data);
        return p, cnt;
      }
      Attach(x, q, which, bp, bq, path, stack, len, fs, k, top);
      return x, cnt;
    }
  }
}
