/** Erasing from the AVL tree: the descent under a fake root, and the walk back up after a node was taken out. */
module KavlRemoval {
  import opened ByteOrder
  import opened KavlShape
  import opened KavlRules
  import opened KavlInsert
  import opened KavlErase
  import opened KavlSearch
  import opened KavlMemory
  import opened KavlPaths
  import opened KavlLink
  import opened KavlUnlink
  import opened KavlTree
  import opened KavlDetach
  import opened Sequences
  import opened Sides

  /** The path from the fake node, whose `p[0]` is the root. */
  ghost function Whole(fake: Elem, fs: Path): Path {
    [Frame(L, fake, 0, 0, Leaf)] + fs
  }

  lemma WholeMore(fake: Elem, fs: Path, f: Frame)
    ensures Whole(fake, fs) + [f] == Whole(fake, fs + [f]) && |Whole(fake, fs)| == 1 + |fs|
  {
  }

  lemma WholeNone(fake: Elem)
    ensures Whole(fake, []) == [] + [Frame(L, fake, 0, 0, Leaf)] && |Whole(fake, [])| == 1 && 45 < MAX_DEPTH
  {
  }

  /** kavl_erase finds the node and remembers the path. */
  method FindVictim(tree: Kavl, fake: Elem, x: Bytes, path: array<Elem?>, dir: array<Side>)
      returns (p: Elem?, d: nat, cnt: int, ghost fs: Path, ghost t: Tree)
    requires tree.Valid() && path.Length == dir.Length == MAX_DEPTH
    modifies path, dir
    ensures p == Holder(Inorder(tree.shape), x) && cnt == if p == null then 0 else Rank(Inorder(tree.shape), x)
    ensures p != null ==>
      && Place(tree.shape, fs, t, x) == true && t.Node? && t.n == p
      && d == 1 + |fs| && OnPath(path[..], Whole(fake, fs)) == true && Turns(dir[..], Whole(fake, fs), 0, d) == true
  {
    hide *;
    tree.Opened();
    ghost var shape := tree.shape;
    fs, t, cnt := [], shape, 0;
    StartPlace(shape, x);
    OnPathNone(path[..]);
    TurnsNone(dir[..], []);
    WholeNone(fake);
    Kavl.Push(path, dir, fake, L, 0, 0, [], 0, Frame(L, fake, 0, 0, Leaf));
    d := 1;
    p := tree.root;
    if p == null {
      RootNull(t);
      PlaceNone(shape, fs, x);
      return;
    }
    var cmp := LengthFirst(x, p.data);
    while cmp != 0
      invariant Place(shape, fs, t, x) == true && Is(tree.mem, t) == true && p == t.Root() && p != null && cmp == LengthFirst(x, p.data)
      invariant cnt == |Before(fs)| && d == 1 + |fs|
      invariant OnPath(path[..], Whole(fake, fs)) == true && Turns(dir[..], Whole(fake, fs), 0, d) == true
      decreases t
    {
      NodeReads(tree.mem, t);
      tree.Fields(p);
      PlaceStep(shape, fs, t, x);
      RoomBelow(shape, fs, t, x);
      if cmp > 0 {
        var z := tree.SizeOf(p.left);
        cnt := cnt + z + 1;
      }
      var which := if cmp > 0 then R else L;
      NearIs(t, which);
      CellKid(tree.mem[p], which);
      var next := p.Kid(which);
      TurnsLength(dir[..], Whole(fake, fs), 0, d);
      WholeMore(fake, fs, Down(t, which));
      Kavl.Push(path, dir, p, which, d, d, Whole(fake, fs), 0, Down(t, which));
      fs, t, d := fs + [Down(t, which)], t.Near(which), d + 1;
      p := next;
      if p == null {
        RootNull(t);
        PlaceNone(shape, fs, x);
        cnt := 0;
        return;
      }
      cmp := LengthFirst(x, p.data);
    }
    NodeReads(tree.mem, t);
    tree.Fields(p);
    PlaceStep(shape, fs, t, x);
    var z := tree.SizeOf(p.left);
    cnt := cnt + z + 1;
  }

  // ---------------------------------------------------------------- the walk back up

  /** The rotations of one round, at the node q that leans too far.  Returns the new root of the subtree. */
  method RestoreTurn(tree: Kavl, q: Elem, which: Side, ghost f: Frame, ghost t: Tree) returns (top: Elem?, done: bool)
    requires tree.Synced() == true && FrameAvl(f, H(t) + 1) == true && Avl(t) == true && Leaning(f, t).Node? && which == f.side
    requires q == Leaning(f, t).n && Leaning(f, t).b == Away(f.side) + Away(f.side)
    requires Is(tree.mem, Leaning(f, t)) == true && Distinct(Leaning(f, t)) == true
    modifies tree`mem, tree.mem.Keys
    ensures tree.Synced() == true && tree.mem.Keys == old(tree.mem.Keys) && Only(old(tree.mem), tree.mem, Nodes(Leaning(f, t))) == true
    ensures Is(tree.mem, Restored(f, t).0) == true && top == Restored(f, t).0.Root() && done == Restored(f, t).1
  {
    ghost var m, u := tree.mem, Leaning(f, t);
    hide *;
    RestoredIs(f, t);
    TurnNodes(u, which.Flip());
    RootReads(m, u, which.Flip());
    AwayIs(which);
    tree.Fields(q);
    var b1 := if which == L then 1 else -1;
    var r := q.Kid(which.Flip());
    tree.Fields(r);
    if r.balance == -b1 {
      top := tree.Rotate2(q, which, u);
      done := false;
      RotRoots(u, which, 0, 0);
      OnlyMore(m, tree.mem, {q, r, top}, Nodes(u));
    } else if r.balance == 0 {
      top := tree.Rotate1Balanced(q, which, -b1, b1, u);
      done := true;
      RotRoots(u, which, -b1, b1);
      OnlyMore(m, tree.mem, {q, top}, Nodes(u));
    } else {
      top := tree.Rotate1Balanced(q, which, 0, 0, u);
      done := false;
      RotRoots(u, which, 0, 0);
      OnlyMore(m, tree.mem, {q, top}, Nodes(u));
    }
  }

  /** One round of the repair at `path[d]`, whose parent is `path[d-1]`. */
  method RestoreNode(tree: Kavl, q: Elem, which: Side, par: Elem, side: Side, ghost g: Path, ghost f: Frame, ghost t: Tree)
      returns (done: bool)
    requires tree.Synced() == true && Stands(tree.mem, g + [f], t) == true && FrameAvl(f, H(t) + 1) == true && Avl(t) == true
    requires q == f.n && which == f.side && g != [] && par == LastNode(g) && side == g[|g| - 1].side
    modifies tree`mem, tree.mem.Keys
    ensures tree.Synced() == true && tree.mem.Keys == old(tree.mem.Keys)
    ensures Stands(tree.mem, g, Restored(f, t).0) == true && done == Restored(f, t).1
  {
    hide *;
    StandsIs(tree.mem, g + [f], t);
    LeaningMemory(tree.mem, g, f, t);
    RestoredIs(f, t);
    RestoredApart(g, f, t);
    AwayIs(which);
    tree.Fields(q);
    var b1 := if which == L then 1 else -1;
    tree.SetBalance(q, q.balance + b1);
    tree.Fields(q);
    ghost var u, v, m := Leaning(f, t), Restored(f, t).0, tree.mem;
    RootReads0(m, u);
    if q.balance == b1 {
      done := true;
      StandsIs(m, g, v);
    } else if q.balance == b1 + b1 {
      ApartIs(g, u);
      var top;
      top, done := RestoreTurn(tree, q, which, f, t);
      RehungIs(m, tree.mem, g, u, v);
      HungIs(tree.mem, g, v.Root());
      tree.SetKid(par, side, top);
      StandsIs(tree.mem, g, v);
    } else {
      done := false;
      StandsIs(m, g, v);
    }
  }

  lemma RootReads0(m: Mem, t: Tree)
    requires t.Node? && Is(m, t) == true
    ensures t.n in m && m[t.n].balance == t.b
  {
  }

  lemma WholeLast(fake: Elem, gs: Path)
    requires gs != []
    ensures var g := gs[..|gs| - 1];
      && Whole(fake, g) + [gs[|gs| - 1]] == Whole(fake, gs) && Whole(fake, g) != [] && |Whole(fake, gs)| == |gs| + 1
      && Whole(fake, gs)[|gs|] == gs[|gs| - 1] && Whole(fake, gs)[|gs| - 1] == Whole(fake, g)[|Whole(fake, g)| - 1]
      && |Whole(fake, g)| == |gs| && LastNode(Whole(fake, g)) == Whole(fake, g)[|gs| - 1].n
  {
  }

  lemma WholePrefix(fake: Elem, fs: Path, gs: Path, path: seq<Elem?>, dir: seq<Side>, d: nat, i: nat)
    requires gs <= fs && OnPath(path, Whole(fake, fs)) == true && Turns(dir, Whole(fake, fs), 0, d) == true && i <= |gs|
    ensures i < |path| && i < |dir| && i < |Whole(fake, gs)| && path[i] == Whole(fake, gs)[i].n && dir[i] == Whole(fake, gs)[i].side
  {
    assert Whole(fake, gs)[i] == Whole(fake, fs)[i];
    assert dir[i] == Whole(fake, fs)[0 + i].side;
  }

  /** A path and what is in its hole are one tree below the fake node. */
  lemma Collapse(m: Mem, fake: Elem, gs: Path, u: Tree)
    requires Stands(m, Whole(fake, gs), u) == true
    ensures Stands(m, Whole(fake, []), Fill(gs, u)) == true && Distinct(Fill(gs, u)) && fake !in Nodes(Fill(gs, u))
    ensures fake in m && m[fake] == Cell(Fill(gs, u).Root(), null, 0, 0) && Is(m, Fill(gs, u))
  {
    hide FIs, Is, FDistinct, Distinct, FNodes, Nodes;
    var ff := Frame(L, fake, 0, 0, Leaf);
    StandsIs(m, Whole(fake, gs), u);
    FIsSum(m, [ff], gs, u.Root());
    FillRoot(gs, u);
    FIsOne(m, ff, Head(gs, u.Root()));
    IsFill(m, gs, u);
    FDistinctSum([ff], gs);
    FNodesOne(ff);
    DistinctFill(gs, u);
    assert Whole(fake, []) == [ff];
  }

  lemma ShortDone(t: Tree)
    requires Short([], t) == true
    ensures Avl(Fill([], t)) == true && Sized(Fill([], t)) == true
  {
    ShortRoot(t);
  }

  /** The loop of kavl_erase that walks the path back up. */
  method RestoreUp(tree: Kavl, fake: Elem, path: array<Elem?>, dir: array<Side>, d0: nat, ghost fs: Path, ghost t: Tree)
      returns (ghost top: Tree)
    requires tree.Synced() == true && Stands(tree.mem, Whole(fake, fs), t) == true && Short(fs, t) == true && d0 == 1 + |fs|
    requires OnPath(path[..], Whole(fake, fs)) == true && Turns(dir[..], Whole(fake, fs), 0, d0) == true
    modifies tree`mem, tree.mem.Keys
    ensures tree.Synced() == true && tree.mem.Keys == old(tree.mem.Keys) && Stands(tree.mem, Whole(fake, []), top) == true
    ensures Avl(top) == true && Sized(top) == true && Inorder(top) == Inorder(Fill(fs, t)) && Nodes(top) == Nodes(Fill(fs, t))
    ensures Distinct(top) == true && Is(tree.mem, top) == true && fake in tree.mem && fake !in Nodes(top)
    ensures tree.mem[fake] == Cell(top.Root(), null, 0, 0)
  {
    ghost var (ps, ds, keys) := (path[..], dir[..], tree.mem.Keys);
    hide *;
    var d := d0 - 1;
    ghost var gs, u := fs, t;
    while d > 0
      invariant tree.Synced() == true && tree.mem.Keys == keys && path[..] == ps && dir[..] == ds
      invariant Stands(tree.mem, Whole(fake, gs), u) == true && Short(gs, u) == true && d == |gs| && gs <= fs
      invariant Inorder(Fill(gs, u)) == Inorder(Fill(fs, t)) && Nodes(Fill(gs, u)) == Nodes(Fill(fs, t))
      decreases d
    {
      StepUp(gs, u);
      WholeLast(fake, gs);
      WholePrefix(fake, fs, gs, ps, ds, d0, d);
      WholePrefix(fake, fs, gs, ps, ds, d0, d - 1);
      ghost var g, f := gs[..d - 1], gs[d - 1];
      var done := RestoreNode(tree, path[d], dir[d], path[d - 1], dir[d - 1], Whole(fake, g), f, u);
      u, gs := Restored(f, u).0, g;
      if done {
        top := Fill(gs, u);
        Collapse(tree.mem, fake, gs, u);
        return;
      }
      d := d - 1;
    }
    ShortDone(u);
    top := Fill(gs, u);
    Collapse(tree.mem, fake, gs, u);
  }

  // ---------------------------------------------------------------- erasing

  /** The tree below the fake node, before anything was unlinked. */
  lemma WholeStands(m: Mem, fake: Elem, fs: Path, t: Tree)
    requires Is(m, Fill(fs, t)) && Distinct(Fill(fs, t)) && fake !in m
    ensures var m' := m[fake := Cell(Fill(fs, t).Root(), null, 0, 0)];
      Stands(m', Whole(fake, fs), t) == true && FDistinct(Whole(fake, fs)) == true
  {
    hide FIs, Is, FDistinct, Distinct, FNodes, Nodes;
    var ff := Frame(L, fake, 0, 0, Leaf);
    var m' := m[fake := Cell(Fill(fs, t).Root(), null, 0, 0)];
    IsNodes(m, Fill(fs, t));
    IsFrame(m, m', Fill(fs, t), {fake});
    IsFill(m', fs, t);
    FillRoot(fs, t);
    FIsSum(m', [ff], fs, t.Root());
    FakeIs(m', ff, Head(fs, t.Root()));
    DistinctFill(fs, t);
    FDistinctSum([ff], fs);
    StandsIs(m', Whole(fake, fs), t);
  }

  lemma FakeIs(m: Mem, f: Frame, hole: Elem?)
    requires f.side == L && f.sib == Leaf && f.n in m && m[f.n] == Cell(hole, null, f.b, f.z)
    ensures FIs(m, [f], hole) && FNodes([f]) == {f.n} && FDistinct([f])
  {
    FIsOne(m, f, hole);
    FakeNodes(f);
  }

  lemma FakeNodes(f: Frame)
    requires f.sib == Leaf
    ensures FNodes([f]) == {f.n} && FDistinct([f])
  {
    FNodesOne(f);
  }

  /** Counting the path down leaves the fake node alone. */
  lemma WholeCounted(fake: Elem, fs: Path)
    ensures Counted(Whole(fake, fs), 1, |Whole(fake, fs)|, -1) == Whole(fake, Counted(fs, 0, |fs|, -1))
    ensures Alike(Whole(fake, fs), Whole(fake, Counted(fs, 0, |fs|, -1)))
  {
  }

  lemma WholeCountedSame(fake: Elem, fs: Path, path: seq<Elem?>, dir: seq<Side>, d: nat, t: Tree, m: Mem, m': Mem)
    requires OnPath(path, Whole(fake, fs)) == true && Turns(dir, Whole(fake, fs), 0, d) == true
    requires Stands(m, Whole(fake, fs), t) == true && Only(m, m', FNodes(Whole(fake, fs))) == true
    requires FIs(m', Whole(fake, Counted(fs, 0, |fs|, -1)), t.Root()) == true
    ensures var c := Whole(fake, Counted(fs, 0, |fs|, -1));
      && OnPath(path, c) == true && Turns(dir, c, 0, d) == true && Stands(m', c, t) == true && c != [] && |c| == 1 + |fs| == d
  {
    var c := Whole(fake, Counted(fs, 0, |fs|, -1));
    WholeCounted(fake, fs);
    AlikeRules(Whole(fake, fs), c, 0, 0);
    IsFrame(m, m', t, FNodes(Whole(fake, fs)));
  }

  /** `fake.head.p[0] = *root_` */
  method Enter(tree: Kavl, fake: Elem)
    requires tree.Synced() && fake !in tree.mem
    modifies tree`mem, fake
    ensures tree.Synced() == true && tree.mem == old(tree.mem)[fake := Cell(tree.root, null, 0, 0)]
    ensures tree.mem.Keys == old(tree.mem.Keys) + {fake}
  {
    fake.left, fake.right, fake.balance, fake.size := tree.root, null, 0, 0;
    tree.mem := tree.mem[fake := Cell(tree.root, null, 0, 0)];
  }

  lemma WholeApart(fake: Elem, rs: Path, u: Tree, m: Mem)
    requires Apart(rs, u) && fake !in FNodes(rs) + Nodes(u)
    requires FIs(m, Whole(fake, rs), u.Root()) == true && Is(m, u) == true
    ensures Stands(m, Whole(fake, rs), u) == true
  {
    hide FIs, Is, Distinct, Nodes;
    FDistinctSum([Frame(L, fake, 0, 0, Leaf)], rs);
    FakeNodes(Frame(L, fake, 0, 0, Leaf));
    StandsIs(m, Whole(fake, rs), u);
  }

  lemma RemovedPath(fake: Elem, fs: Path, t: Tree)
    requires t.Node?
    ensures Whole(fake, Counted(fs, 0, |fs|, -1)) + Left(t).0 == Whole(fake, Removed(fs, t).0) && Left(t).1 == Removed(fs, t).1
    ensures Nodes(Fill(Removed(fs, t).0, Removed(fs, t).1)) == FNodes(Removed(fs, t).0) + Nodes(Removed(fs, t).1)
  {
    hide Left;
    DistinctFill(Removed(fs, t).0, Removed(fs, t).1);
    Assoc([Frame(L, fake, 0, 0, Leaf)], Counted(fs, 0, |fs|, -1), Left(t).0);
  }

  /** The sizes on the path, and the unlinking of p. */
  method CountAndUnlink(tree: Kavl, fake: Elem, p: Elem, path: array<Elem?>, dir: array<Side>, d0: nat, ghost fs: Path, ghost t: Tree)
      returns (d: nat)
    requires tree.Synced() == true && Stands(tree.mem, Whole(fake, fs), t) == true && FDistinct(Whole(fake, fs)) == true
    requires t.Node? && t.n == p && d0 == 1 + |fs| && |fs| + H(t) <= 45 && path.Length == dir.Length == MAX_DEPTH
    requires OnPath(path[..], Whole(fake, fs)) == true && Turns(dir[..], Whole(fake, fs), 0, d0) == true
    requires Apart(Removed(fs, t).0, Removed(fs, t).1) == true && fake !in Nodes(Fill(Removed(fs, t).0, Removed(fs, t).1))
    modifies tree`mem, tree.mem.Keys, path, dir
    ensures tree.Synced() == true && tree.mem.Keys == old(tree.mem.Keys)
    ensures Stands(tree.mem, Whole(fake, Removed(fs, t).0), Removed(fs, t).1) == true
    ensures OnPath(path[..], Whole(fake, Removed(fs, t).0)) == true && Turns(dir[..], Whole(fake, Removed(fs, t).0), 0, d) == true
  {
    ghost var m := tree.mem;
    ghost var (ps, ds, w, c) := (path[..], dir[..], Whole(fake, fs), Whole(fake, Counted(fs, 0, |fs|, -1)));
    hide *;
    StandsIs(m, w, t);
    RootIs(t);
    WholeNone(fake);
    WholeCounted(fake, fs);
    assert path[0..] == ps;
    WholeSize(fake, fs);
    tree.CountPath(path, 0, 1, d0, -1, w, p);
    assert path[..] == ps && dir[..] == ds;
    WholeCountedSame(fake, fs, ps, ds, d0, t, m, tree.mem);
    d := Unlink(tree, p, path, dir, d0, c, t);
    RemovedPath(fake, fs, t);
    WholeApart(fake, Removed(fs, t).0, Removed(fs, t).1, tree.mem);
  }

  lemma WholeSize(fake: Elem, fs: Path)
    ensures |Whole(fake, fs)| == 1 + |fs|
  {
  }

  /** `*root_ = fake.head.p[0]`; the fake node and p are no part of the tree. */
  method Leave(tree: Kavl, fake: Elem, p: Elem, ghost top: Tree)
    requires tree.Synced() == true && fake in tree.mem && tree.mem[fake] == Cell(top.Root(), null, 0, 0) && Is(tree.mem, top) == true
    requires Sound(top) == true && Nodes(top) == tree.mem.Keys - {fake, p}
    modifies tree
    ensures tree.Valid() && tree.shape == top && tree.mem.Keys == old(tree.mem.Keys) - {fake, p}
  {
    hide Sound, Is, Nodes;
    ghost var m := tree.mem;
    tree.Fields(fake);
    IsFrame(m, m - {fake, p}, top, {fake, p});
    tree.root := fake.left;
    tree.mem := tree.mem - {fake, p};
    tree.shape := top;
  }

  /** The fake node goes in, and p comes out. */
  method TakeOut(tree: Kavl, fake: Elem, p: Elem, path: array<Elem?>, dir: array<Side>, d0: nat, ghost fs: Path, ghost t: Tree)
      returns (d: nat)
    requires tree.Valid() && fake !in tree.mem && path.Length == dir.Length == MAX_DEPTH
    requires Fill(fs, t) == tree.shape && t.Node? && t.n == p && d0 == 1 + |fs|
    requires OnPath(path[..], Whole(fake, fs)) == true && Turns(dir[..], Whole(fake, fs), 0, d0) == true
    modifies tree`mem, tree.mem.Keys, fake, path, dir
    ensures tree.Synced() == true && tree.mem.Keys == old(tree.mem.Keys) + {fake} && d == 1 + |Removed(fs, t).0|
    ensures Stands(tree.mem, Whole(fake, Removed(fs, t).0), Removed(fs, t).1) == true
    ensures OnPath(path[..], Whole(fake, Removed(fs, t).0)) == true && Turns(dir[..], Whole(fake, Removed(fs, t).0), 0, d) == true
  {
    ghost var shape := tree.shape;
    hide *;
    tree.Opened();
    FillParts(shape, fs, t);
    RemoveSound(shape, fs, t);
    WholeStands(tree.mem, fake, fs, t);
    Enter(tree, fake);
    d := CountAndUnlink(tree, fake, p, path, dir, d0, fs, t);
    TurnsLength(dir[..], Whole(fake, Removed(fs, t).0), 0, d);
    WholeSize(fake, Removed(fs, t).0);
  }

  /** The part of kavl_erase after the node p, of rank c, was found. */
  method RemoveAt(tree: Kavl, fake: Elem, p: Elem, path: array<Elem?>, dir: array<Side>, d0: nat, ghost c: nat, ghost fs: Path, ghost t: Tree)
    requires tree.Valid() && fake !in tree.mem && path.Length == dir.Length == MAX_DEPTH
    requires Fill(fs, t) == tree.shape && t.Node? && t.n == p && d0 == 1 + |fs| && c == |Before(fs)| + Count(t.left) + 1
    requires OnPath(path[..], Whole(fake, fs)) == true && Turns(dir[..], Whole(fake, fs), 0, d0) == true
    modifies tree, tree.mem.Keys, fake, path, dir
    ensures tree.Valid() && tree.mem.Keys == old(tree.mem.Keys) - {p} && Removes(old(tree.shape), tree.shape, c, p) == true
  {
    ghost var shape := tree.shape;
    hide *;
    tree.Opened();
    RemoveSound(shape, fs, t);
    var d := TakeOut(tree, fake, p, path, dir, d0, fs, t);
    ghost var top := RestoreUp(tree, fake, path, dir, d, Removed(fs, t).0, Removed(fs, t).1);
    RemovedSound(shape, top, c);
    RemovesIs(shape, top, c, p);
    Leave(tree, fake, p, top);
  }

  /** The sequence of the tree loses p, which has rank c, and nothing else. */
  ghost predicate Removes(t: Tree, t': Tree, c: nat, p: Elem) {
    1 <= c <= |Inorder(t)| && Inorder(t)[c - 1] == p && Inorder(t') == Without(Inorder(t), c)
  }

  lemma RemovesIs(t: Tree, t': Tree, c: nat, p: Elem)
    ensures Removes(t, t', c, p) <==> 1 <= c <= |Inorder(t)| && Inorder(t)[c - 1] == p && Inorder(t') == Without(Inorder(t), c)
  {
  }

  /** kavl_erase: the node with key `x`, which is no longer in the tree, and the number of keys up to it; NULL and 0 if there is none. */
  method Erase(tree: Kavl, x: Bytes) returns (p: Elem?, cnt: int)
    requires tree.Valid()
    modifies tree, tree.mem.Keys
    ensures tree.Valid() && p == Holder(old(Inorder(tree.shape)), x)
    ensures p == null ==> cnt == 0 && tree.shape == old(tree.shape) && tree.mem == old(tree.mem)
    ensures p != null ==>
      && cnt == Rank(old(Inorder(tree.shape)), x) && Removes(old(tree.shape), tree.shape, cnt, p)
      && tree.mem.Keys == old(tree.mem.Keys) - {p}
  {
    var path, dir := new Elem?[MAX_DEPTH], new Side[MAX_DEPTH];
    var fake := new Elem([]);
    var d;
    ghost var fs, t;
    p, d, cnt, fs, t := FindVictim(tree, fake, x, path, dir);
    if p != null {
      VictimRank(tree.shape, fs, t, x);
      RemoveAt(tree, fake, p, path, dir, d, cnt, fs, t);
    }
  }

  lemma VictimRank(shape: Tree, fs: Path, t: Tree, x: Bytes)
    requires Sound(shape) && Place(shape, fs, t, x) && t.Node? && Holder(Inorder(shape), x) == t.n
    ensures Rank(Inorder(shape), x) == |Before(fs)| + Count(t.left) + 1 && Fill(fs, t) == shape
  {
    hide Sound, Place, Inorder, Before, Rank, Holder, Count;
    PlaceInorder0(shape, fs, t, x);
    PlaceStep(shape, fs, t, x);
    HolderKey(Inorder(shape), x);
    KeyOrder(x, t.n.data);
  }

  lemma PlaceInorder0(shape: Tree, fs: Path, t: Tree, x: Bytes)
    requires Sound(shape) && Place(shape, fs, t, x) && t.Node?
    ensures Fill(fs, t) == shape && t.left.Z() == Count(t.left)
  {
    PlaceInorder(shape, fs, t, x);
    NearRules(t, L);
    SizedZ(t.left);
  }

  lemma {:induction false} HolderKey(s: seq<Elem>, k: Bytes)
    requires Holder(s, k) != null
    ensures Holder(s, k).data == k && Holder(s, k) in s
  {
    if s[0].data != k {
      HolderKey(s[1..], k);
    }
  }

  // ---------------------------------------------------------------- erasing the first node

  /** The walk to the left has passed `a` and stands at `u`, which is below the last node once it is empty. */
  ghost predicate Leftward(shape: Tree, a: Path, u: Tree) {
    && (u.Node? ==> Walked(shape, a, u))
    && (u == Leaf ==> shape.Node? && |a| == |Spine(shape)| + 1 && a[..|a| - 1] == Spine(shape) && a[|a| - 1].n == Min(shape).n)
  }

  lemma LeftwardStart(shape: Tree)
    requires shape.Node?
    ensures Leftward(shape, [], shape) == true && |Spine(shape)| < H(shape)
  {
    WalkedStart(shape);
    SpineLength(shape);
  }

  lemma LeftwardStep(shape: Tree, a: Path, u: Tree)
    requires Leftward(shape, a, u) == true && u.Node?
    ensures Leftward(shape, a + [Down(u, L)], u.left) == true && Down(u, L).n == u.n && Down(u, L).side == L
    ensures |a| <= |Spine(shape)|
  {
    if u.left.Node? {
      WalkedStep(shape, a, u);
    } else {
      WalkedEnd(shape, a, u);
      assert (a + [Down(u, L)])[..|a|] == a;
    }
  }

  lemma LeftwardEnd(shape: Tree, a: Path)
    requires Leftward(shape, a, Leaf) == true
    ensures shape.Node? && a != [] && a[..|a| - 1] == Spine(shape) && a[|a| - 1].n == Min(shape).n
  {
  }

  /** With no key given: the leftmost node, and the path to it. */
  method FindFirst(tree: Kavl, fake: Elem, path: array<Elem?>, dir: array<Side>) returns (p: Elem, d: nat)
    requires tree.Valid() && tree.shape.Node? && path.Length == dir.Length == MAX_DEPTH
    modifies path, dir
    ensures p == Min(tree.shape).n && d == 1 + |Spine(tree.shape)|
    ensures OnPath(path[..], Whole(fake, Spine(tree.shape))) == true && Turns(dir[..], Whole(fake, Spine(tree.shape)), 0, d) == true
  {
    hide *;
    tree.Opened();
    ghost var shape, a, u := tree.shape, [], tree.shape;
    LeftwardStart(shape);
    SoundHeight(shape);
    OnPathNone(path[..]);
    TurnsNone(dir[..], []);
    WholeNone(fake);
    Kavl.Push(path, dir, fake, L, 0, 0, [], 0, Frame(L, fake, 0, 0, Leaf));
    d := 1;
    var n := tree.root;
    while n != null
      invariant Leftward(shape, a, u) == true && n == u.Root() && Is(tree.mem, u) == true && d == 1 + |a|
      invariant OnPath(path[..], Whole(fake, a)) == true && Turns(dir[..], Whole(fake, a), 0, d) == true
      decreases u
    {
      NodeReads(tree.mem, u);
      tree.Fields(n);
      LeftwardStep(shape, a, u);
      TurnsLength(dir[..], Whole(fake, a), 0, d);
      WholeMore(fake, a, Down(u, L));
      var next := n.left;
      Kavl.Push(path, dir, n, L, d, d, Whole(fake, a), 0, Down(u, L));
      a, u, d := a + [Down(u, L)], u.left, d + 1;
      n := next;
    }
    RootNull(u);
    LeftwardEnd(shape, a);
    d := d - 1;
    WholeLast(fake, a);
    OnPathAt(path[..], Whole(fake, a), d);
    PathPrefix(path[..], dir[..], Whole(fake, a[..|a| - 1]), [a[|a| - 1]], d + 1);
    p := path[d];
  }

  lemma SoundHeight(shape: Tree)
    requires Sound(shape)
    ensures H(shape) <= 45
  {
    HeightFits(shape);
  }

  lemma FirstPlace(shape: Tree)
    requires Sound(shape) && shape.Node?
    ensures Fill(Spine(shape), Min(shape)) == shape && |Before(Spine(shape))| + Count(Min(shape).left) + 1 == 1
    ensures Inorder(shape) != [] && Inorder(shape)[0] == Min(shape).n
  {
    SpineFill(shape);
    MinRules(Min(shape));
    InorderFill(Spine(shape), Min(shape));
  }

  /** kavl_erase_first, on a tree that is not empty. */
  method EraseFirst(tree: Kavl) returns (p: Elem)
    requires tree.Valid() && tree.shape.Node?
    modifies tree, tree.mem.Keys
    ensures tree.Valid() && tree.mem.Keys == old(tree.mem.Keys) - {p}
    ensures old(Inorder(tree.shape)) == [p] + Inorder(tree.shape)
  {
    var path, dir := new Elem?[MAX_DEPTH], new Side[MAX_DEPTH];
    var fake := new Elem([]);
    var d;
    ghost var shape := tree.shape;
    p, d := FindFirst(tree, fake, path, dir);
    FirstPlace(shape);
    RemoveAt(tree, fake, p, path, dir, d, 1, Spine(shape), Min(shape));
    FirstGone(shape, tree.shape, p);
  }

  lemma FirstGone(t: Tree, t': Tree, p: Elem)
    requires Removes(t, t', 1, p)
    ensures Inorder(t) == [p] + Inorder(t')
  {
  }
}
