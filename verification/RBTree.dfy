/** The red-black tree on real nodes: linking, insertion repair, erasure and traversal. */
module RBTrees {
  import opened RBShape
  import opened RBRotate
  import opened RBInsert
  import opened RBErase
  import opened RBSplice
  import opened RBWalk
  import opened Sequences
  import opened Sides

  class RBTree<T> {
    var root: RBNode?<T>
    ghost var mem: Mem<T>
    ghost var shape: Tree<T>

    constructor ()
      ensures Valid() && shape == Leaf && mem == map[]
    {
      root, mem, shape := null, map[], Leaf;
    }

    /** `mem` is what the nodes of the tree hold now. */
    ghost predicate Synced()
      reads this, mem.Keys
    {
      forall n <- mem.Keys ::
        n.parent == mem[n].parent && n.red == mem[n].red && n.left == mem[n].left && n.right == mem[n].right
    }

    // -------------------------------------------------------------- single writes

    method SetParentColor(n: RBNode<T>, p: RBNode?<T>, red: bool)
      requires n in mem && Synced()
      modifies this`mem, n
      ensures Synced() && mem == MSetPC(old(mem), n, p, red)
    {
      n.parent, n.red := p, red;
      mem := mem[n := mem[n].(parent := p, red := red)];
    }

    method SetKid(n: RBNode<T>, s: Side, v: RBNode?<T>)
      requires n in mem && Synced()
      modifies this`mem, n
      ensures Synced() && mem == MSetKid(old(mem), n, s, v)
    {
      if s == L {
        n.left := v;
      } else {
        n.right := v;
      }
      mem := mem[n := mem[n].SetKid(s, v)];
    }

    method ChangeChild(was: RBNode<T>, now: RBNode?<T>, parent: RBNode?<T>, ghost up: Ctx<T>)
      requires Synced() && HangsAt(mem, was, parent, up)
      modifies this`mem, this`root, mem.Keys
      ensures Synced() && mem == MChangeChild(old(mem), up, now)
      ensures root == if up.Top? then now else old(root)
    {
      if parent != null {
        if parent.left == was {
          SetKid(parent, L, now);
        } else {
          SetKid(parent, R, now);
        }
      } else {
        root := now;
      }
    }

    method RotateSetParents(was: RBNode<T>, now: RBNode<T>, red: bool, ghost up: Ctx<T>)
      requires Synced() && was in mem && now in mem && was != now && HangsAt(mem, was, mem[was].parent, up)
      requires up.Up? ==> up.n != was && up.n != now
      modifies this`mem, this`root, mem.Keys
      ensures Synced()
      ensures mem == MRotateSetParents(old(mem), was, now, red, up)
      ensures root == if up.Top? then now else old(root)
    {
      var parent := was.parent;
      SetParentColor(now, was.parent, was.red);
      SetParentColor(was, now, red);
      ChangeChild(was, now, parent, up);
    }

    // -------------------------------------------------------------- insertion

    /** Case 2: rotate at the parent, away from side `s`. */
    method InsertCase2(node: RBNode<T>, parent: RBNode<T>, s: Side) returns (tmp: RBNode?<T>)
      requires Synced() && node in mem && parent in mem && node != parent && Loose(mem, mem[node].Kid(s), {node, parent})
      modifies this`mem, mem.Keys
      ensures Synced() && mem == Case2Mem(old(mem), node, parent, s) && tmp == mem[node].Kid(s.Flip())
    {
      tmp := node.Kid(s);
      SetKid(parent, s.Flip(), tmp);
      SetKid(node, s, parent);
      if tmp != null {
        SetParentColor(tmp, parent, false);
      }
      SetParentColor(parent, node, true);
      tmp := node.Kid(s.Flip());
    }

    /** Case 3: rotate at the grandparent, towards side `s.Flip()`. */
    method InsertCase3(parent: RBNode<T>, gparent: RBNode<T>, tmp: RBNode?<T>, s: Side, ghost up: Ctx<T>)
      requires Synced() && parent in mem && gparent in mem && parent != gparent
      requires Loose(mem, tmp, {parent, gparent} + Opt(up.Head())) && HangsAt(mem, gparent, mem[gparent].parent, up)
      requires up.Up? ==> up.n !in {parent, gparent}
      modifies this`mem, this`root, mem.Keys
      ensures Synced() && mem == Case3Mem(old(mem), parent, gparent, tmp, s, up)
      ensures root == if up.Up? then old(root) else parent
    {
      SetKid(gparent, s, tmp);
      SetKid(parent, s.Flip(), gparent);
      if tmp != null {
        SetParentColor(tmp, gparent, false);
      }
      assert mem == MPaint(MSetKid(MSetKid(old(mem), gparent, s, tmp), parent, s.Flip(), gparent), tmp, gparent);
      StillHangsAt(old(mem), mem, gparent, up);
      hide MPaint, MSetKid, MRotateSetParents, Loose;
      RotateSetParents(gparent, parent, true, up);
    }

    /** The tree is `t` below and `c` above the current node. */
    ghost predicate At(c: Ctx<T>, t: Tree<T>)
      reads this, mem.Keys
    {
      Synced() && CIs(mem, c, t.Root(), root) && Is(mem, t, t.Root(), c.Head()) && NoDup(InCtx(c, Inorder(t)))
    }

    /** Case 1: the uncle is red; flip the colours and go on at the grandparent. */
    method InsertFlip(parent: RBNode<T>, gparent: RBNode<T>, tmp: RBNode<T>, ghost c: Ctx<T>, ghost t: Tree<T>)
      requires At(c, t) && RedRed(c) && t.Node? && c.up.sib.Node?
      requires NoDup(InCtx(c.up.up, Inorder(Flipped(c, t))))
      requires parent == c.n && gparent == c.up.n && tmp == c.up.sib.n
      modifies this`mem, mem.Keys
      ensures At(c.up.up, Flipped(c, t)) && mem.Keys == old(mem).Keys
    {
      ghost var m := mem;
      NoDupSplit(c, t);
      AncestorPointers(m, c, t.n, root);
      UnclePointers(m, c, t, root);
      SetParentColor(tmp, gparent, false);
      SetParentColor(parent, gparent, false);
      SetParentColor(gparent, gparent.parent, true);
      FlippedIs(m, mem, c, t, root);
    }

    /** Case 2 falling through to case 3; `s` is the side of the parent below the grandparent. */
    method InsertCase23(node: RBNode<T>, parent: RBNode<T>, gparent: RBNode<T>, s: Side, ghost c: Ctx<T>, ghost t: Tree<T>)
      requires Synced() && RedRed(c) && t.Node? && Pointers(mem, c, t) && c.side != s
      requires node == t.n && parent == c.n && gparent == c.up.n && s == c.up.side
      modifies this`mem, this`root, mem.Keys
      ensures Synced() && mem.Keys == old(mem).Keys
      ensures mem == Case3Mem(Case2Mem(old(mem), node, parent, s), node, gparent, old(mem)[node].Kid(s.Flip()), s, c.up.up)
      ensures root == if c.up.up.Up? then old(root) else node
    {
      Case2Keeps(mem, c, t);
      var tmp := InsertCase2(node, parent, s);
      InsertCase3(node, gparent, tmp, s, c.up.up);
    }

    /** Cases 2 and 3: the uncle is black, and the rotations end the repair. */
    method InsertRotate(node: RBNode<T>, parent: RBNode<T>, gparent: RBNode<T>, s: Side, ghost c: Ctx<T>, ghost t: Tree<T>)
      requires At(c, t) && RedRed(c) && t.IsRed() && !c.up.sib.IsRed()
      requires !c.sib.IsRed() && !t.left.IsRed() && !t.right.IsRed()
      requires node == t.n && parent == c.n && gparent == c.up.n && s == c.up.side
      modifies this`mem, this`root, mem.Keys
      ensures At(c.up.up, Rotated(c, t)) && mem.Keys == old(mem).Keys
    {
      NoDupSplit(c, t);
      RotatedInorder(c, t);
      InsertPointers(mem, c, t, root);
      var tmp := parent.Kid(s.Flip());
      if node == tmp {
        Case23Turns(mem, node, parent, gparent, s, c.up.up);
        InsertCase23(node, parent, gparent, s, c, t);
        RotatedInnerIs(old(mem), mem, c, t, old(root), root);
      } else {
        Case3Turns(mem, parent, gparent, s, c.up.up);
        InsertCase3(parent, gparent, tmp, s, c.up.up);
        RotatedOuterIs(old(mem), mem, c, t, old(root), root);
      }
    }

    /** The repair is over: the focus, plugged back, is the shape of the tree. */
    ghost method Settle(c: Ctx<T>, t: Tree<T>, h: nat)
      requires At(c, t) && CRb(c, h) && Rb(t, h) && (t.IsRed() ==> c.Up? && !c.red)
      modifies this`shape
      ensures Synced() && Is(mem, shape, root, null) && RedBlack(shape) && Inorder(shape) == InCtx(c, Inorder(t))
    {
      shape := Plug(c, t);
      Repaired(mem, c, t, h, root);
    }

    /** The focus is the whole tree: it becomes the black root. */
    method InsertRoot(node: RBNode<T>, ghost t: Tree<T>)
      requires At(Top, t) && t.Node? && node == t.n
      modifies this`mem, mem.Keys
      ensures At(Top, t.Paint(false)) && mem.Keys == old(mem).Keys
    {
      NoDupSplit(Top, t);
      SetParentColor(node, null, false);
      KidsApart(t, {node});
      IsMoved(old(mem), mem, t, node, null, null, false, {node});
      PaintInorder(t, false);
    }

    /** The parent is red: one step of the repair.  Returns whether it goes on at the grandparent. */
    method InsertRepair(node: RBNode<T>, parent: RBNode<T>, ghost c: Ctx<T>, ghost t: Tree<T>, ghost h: nat)
      returns (again: bool, gparent: RBNode<T>, ghost t': Tree<T>)
      requires At(c, t) && t.IsRed() && t.n == node && c.Up? && parent == c.n && mem[parent].red && CRb(c, h) && Rb(t, h)
      modifies this`mem, this`root, mem.Keys
      ensures mem.Keys == old(mem).Keys && c.up.Up? && gparent == c.up.n
      ensures At(c.up.up, t') && CRb(c.up.up, h + 1) && Rb(t', h + 1) && InCtx(c.up.up, Inorder(t')) == InCtx(c, Inorder(t))
      ensures if again then t'.IsRed() && t'.n == gparent else !t'.IsRed()
    {
      InsertReads(mem, c, t, h, root);
      gparent := parent.parent;
      var tmp, s := gparent.right, L;
      if parent == tmp {
        tmp, s := gparent.left, R;
      }
      if tmp != null && tmp.red {
        FlippedRb(c, t, h);
        InsertFlip(parent, gparent, tmp, c, t);
        return true, gparent, Flipped(c, t);
      }
      RotatedInorder(c, t);
      RotatedRb(c, t, h);
      InsertRotate(node, parent, gparent, s, c, t);
      return false, gparent, Rotated(c, t);
    }

    /** `start` was just linked as a red leaf, or is the root of the red focus `t0` below `c0`. */
    method InsertColor(start: RBNode<T>, ghost c0: Ctx<T>, ghost t0: Tree<T>, ghost h0: nat)
      requires At(c0, t0) && t0.IsRed() && t0.n == start && CRb(c0, h0) && Rb(t0, h0)
      modifies this, mem.Keys
      ensures Synced() && mem.Keys == old(mem).Keys
      ensures Is(mem, shape, root, null) && RedBlack(shape) && Inorder(shape) == InCtx(c0, Inorder(t0))
    {
      var node, parent := start, start.parent;
      ghost var c, t, h := c0, t0, h0;
      while true
        invariant At(c, t) && t.IsRed() && t.n == node && parent == c.Head() && CRb(c, h) && Rb(t, h)
        invariant mem.Keys == old(mem).Keys && InCtx(c, Inorder(t)) == InCtx(c0, Inorder(t0))
        decreases c
      {
        if parent == null {
          InsertRoot(node, t);
          PaintInorder(t, false);
          t, h := t.Paint(false), h + 1;
          break;
        }
        if !parent.red {
          break;
        }
        var again, gparent;
        again, gparent, t := InsertRepair(node, parent, c, t, h);
        c, h := c.up.up, h + 1;
        if !again {
          break;
        }
        node := gparent;
        parent := node.parent;
      }
      Settle(c, t, h);
    }

    // -------------------------------------------------------------- repair after erasure

    /** Case 1: the sibling is red; rotate it above the parent.  Returns the new sibling. */
    method EraseCase1(parent: RBNode<T>, sibling: RBNode<T>, s: Side, ghost c: Ctx<T>, ghost t: Tree<T>) returns (tmp1: RBNode?<T>)
      requires At(c, t) && c.Up? && c.sib.Node? && !c.red && Below(mem, c, t, root) && ErasePointers(mem, c, t)
      requires Near(c.side, c.sib).Node? && !Near(c.side, c.sib).red
      requires parent == c.n && sibling == c.sib.n && s == c.side
      modifies this`mem, this`root, mem.Keys
      ensures At(SiblingRaised(c), t) && mem.Keys == old(mem).Keys && tmp1 == Near(s, c.sib).n
    {
      tmp1 := sibling.Kid(s);
      Case3Turns(mem, sibling, parent, s.Flip(), c.up);
      InsertCase3(sibling, parent, tmp1, s.Flip(), c.up);
      SiblingRaisedIs(old(mem), mem, c, t, old(root), root);
      SiblingRaisedInorder(c, t);
    }

    /** Case 2: both nephews are black; the sibling turns red and a red parent black. */
    method EraseCase2(parent: RBNode<T>, sibling: RBNode<T>, ghost c: Ctx<T>, ghost t: Tree<T>) returns (done: bool)
      requires At(c, t) && c.Up? && c.sib.Node? && Below(mem, c, t, root) && ErasePointers(mem, c, t)
      requires NoDup(InCtx(c.up, Inorder(SiblingFlipped(c, t))))
      requires parent == c.n && sibling == c.sib.n
      modifies this`mem, mem.Keys
      ensures At(c.up, SiblingFlipped(c, t)) && mem.Keys == old(mem).Keys && done == c.red
    {
      SetParentColor(sibling, parent, true);
      done := parent.red;
      if parent.red {
        SetParentColor(parent, parent.parent, false);
      }
      SiblingFlippedIs(old(mem), mem, c, t, root);
    }

    /** Case 3: the near nephew `tmp2` rises above the sibling. */
    method EraseCase3(parent: RBNode<T>, sibling: RBNode<T>, tmp2: RBNode<T>, s: Side)
      requires Synced() && {parent, sibling, tmp2} <= mem.Keys && Loose(mem, mem[tmp2].Kid(s.Flip()), {sibling, tmp2})
      requires tmp2 != sibling
      modifies this`mem, mem.Keys
      ensures Synced() && mem == EraseCase3Mem(old(mem), parent, sibling, tmp2, s)
    {
      var tmp1 := tmp2.Kid(s.Flip());
      SetKid(sibling, s, tmp1);
      SetKid(tmp2, s.Flip(), sibling);
      SetKid(parent, s.Flip(), tmp2);
      if tmp1 != null {
        SetParentColor(tmp1, sibling, false);
      }
    }

    method EraseCase4Relink(parent: RBNode<T>, sibling: RBNode<T>, tmp1: RBNode<T>, s: Side)
      requires Synced() && {parent, sibling, tmp1} <= mem.Keys && parent != sibling && tmp1 != parent && tmp1 != sibling
      requires Loose(mem, mem[sibling].Kid(s), {parent, sibling, tmp1})
      modifies this`mem, mem.Keys
      ensures Synced() && mem == Case4Links(old(mem), parent, sibling, tmp1, s)
    {
      var tmp2 := sibling.Kid(s);
      SetKid(parent, s.Flip(), tmp2);
      SetKid(sibling, s, parent);
      SetParentColor(tmp1, sibling, false);
      if tmp2 != null {
        SetParentColor(tmp2, parent, tmp2.red);
      }
    }

    /** Case 4: the sibling takes the place of the parent; `tmp1` is its far child. */
    method EraseCase4(parent: RBNode<T>, sibling: RBNode<T>, tmp1: RBNode<T>, s: Side, ghost up: Ctx<T>)
      requires Synced() && {parent, sibling, tmp1} <= mem.Keys && parent != sibling && tmp1 != parent && tmp1 != sibling
      requires Loose(mem, mem[sibling].Kid(s), {parent, sibling, tmp1} + Opt(up.Head()))
      requires HangsAt(mem, parent, mem[parent].parent, up) && (up.Up? ==> up.n !in {parent, sibling, tmp1})
      modifies this`mem, this`root, mem.Keys
      ensures Synced() && mem == EraseCase4Mem(old(mem), parent, sibling, tmp1, s, up)
      ensures root == if up.Up? then old(root) else sibling
    {
      Case4LinksKeep(mem, parent, sibling, tmp1, s, up);
      EraseCase4Relink(parent, sibling, tmp1, s);
      RotateSetParents(parent, sibling, false, up);
    }

    /** Case 3 going on to case 4. */
    method EraseCase34(parent: RBNode<T>, sibling: RBNode<T>, tmp2: RBNode<T>, s: Side, ghost up: Ctx<T>)
      requires Synced() && {tmp2, parent, sibling} <= mem.Keys && parent != sibling && tmp2 != parent && tmp2 != sibling
      requires up.Up? ==> up.n !in {tmp2, parent, sibling}
      requires HangsAt(mem, parent, mem[parent].parent, up)
      requires var (a, b, w) := (mem[tmp2].Kid(s.Flip()), mem[tmp2].Kid(s), {tmp2, parent, sibling} + Opt(up.Head()));
        Loose(mem, a, w) && Loose(mem, b, w) && (a != null ==> a != b)
      modifies this`mem, this`root, mem.Keys
      ensures Synced() && mem == EraseCase4Mem(EraseCase3Mem(old(mem), parent, sibling, tmp2, s), parent, tmp2, sibling, s, up)
      ensures root == if up.Up? then old(root) else tmp2
    {
      Case3Keeps(mem, parent, sibling, tmp2, s, up);
      EraseCase3(parent, sibling, tmp2, s);
      EraseCase4(parent, tmp2, sibling, s, up);
    }

    method EraseTurnThree(parent: RBNode<T>, sibling: RBNode<T>, tmp2: RBNode<T>, s: Side, ghost c: Ctx<T>, ghost t: Tree<T>)
      requires At(c, t) && c.Up? && c.sib.Node? && Below(mem, c, t, root) && ErasePointers(mem, c, t)
      requires var (near, far) := (Near(c.side, c.sib), Near(c.side.Flip(), c.sib));
        !far.IsRed() && near.IsRed() && tmp2 == near.n && !near.left.IsRed() && !near.right.IsRed()
      requires NoDup(InCtx(c.up, Inorder(SiblingTurned(c, t))))
      requires parent == c.n && sibling == c.sib.n && s == c.side
      modifies this`mem, this`root, mem.Keys
      ensures At(c.up, SiblingTurned(c, t)) && mem.Keys == old(mem).Keys
    {
      ThreePointers(mem, c, t, root);
      Case34Turns(mem, tmp2, sibling, parent, s, c.up);
      EraseCase34(parent, sibling, tmp2, s, c.up);
      TurnedThreeIs(old(mem), mem, c, t, old(root), root);
    }

    method EraseTurnFour(parent: RBNode<T>, sibling: RBNode<T>, tmp1: RBNode<T>, s: Side, ghost c: Ctx<T>, ghost t: Tree<T>)
      requires At(c, t) && c.Up? && c.sib.Node? && Below(mem, c, t, root) && ErasePointers(mem, c, t)
      requires Near(c.side.Flip(), c.sib).IsRed() && tmp1 == Near(c.side.Flip(), c.sib).n
      requires NoDup(InCtx(c.up, Inorder(SiblingTurned(c, t))))
      requires parent == c.n && sibling == c.sib.n && s == c.side
      modifies this`mem, this`root, mem.Keys
      ensures At(c.up, SiblingTurned(c, t)) && mem.Keys == old(mem).Keys
    {
      Case4Turns(mem, sibling, parent, s, c.up);
      EraseCase4(parent, sibling, tmp1, s, c.up);
      TurnedFourIs(old(mem), mem, c, t, old(root), root);
    }

    /** Cases 2 to 4: the sibling is black. */
    method EraseBlackSibling(parent: RBNode<T>, sibling: RBNode<T>, s: Side, ghost c: Ctx<T>, ghost t: Tree<T>, ghost h: nat)
      returns (again: bool, ghost t': Tree<T>, ghost h': nat)
      requires At(c, t) && Short(c, t, h) && c.sib.Node? && !c.sib.red
      requires parent == c.n && sibling == c.sib.n && s == c.side
      modifies this`mem, this`root, mem.Keys
      ensures At(c.up, t') && mem.Keys == old(mem).Keys && InCtx(c.up, Inorder(t')) == InCtx(c, Inorder(t)) && Rb(t', h')
      ensures if again then !c.red && t'.Root() == parent && (c.up.Up? ==> Short(c.up, t', h')) && !t'.IsRed()
              else CRb(c.up, h') && (t'.IsRed() ==> c.up.Up? && !c.up.red)
    {
      EraseReads(mem, c, t, h, root);
      var tmp1, tmp2 := sibling.Kid(s.Flip()), sibling.Kid(s);
      if tmp1 == null || !tmp1.red {
        if tmp2 == null || !tmp2.red {
          SiblingFlippedRb(c, t, h);
          var done := EraseCase2(parent, sibling, c, t);
          return !done, SiblingFlipped(c, t), h + 1;
        }
        SiblingTurnedRb(c, t, h);
        SiblingTurnedInorder(c, t);
        EraseTurnThree(parent, sibling, tmp2, s, c, t);
      } else {
        SiblingTurnedRb(c, t, h);
        SiblingTurnedInorder(c, t);
        EraseTurnFour(parent, sibling, tmp1, s, c, t);
      }
      return false, SiblingTurned(c, t), if c.red then h + 1 else h + 2;
    }

    /** One step of the repair at `parent`, whose child `node` is black and short by one. */
    method EraseStep(node: RBNode?<T>, parent: RBNode<T>, ghost c: Ctx<T>, ghost t: Tree<T>, ghost h: nat)
      returns (again: bool, ghost c': Ctx<T>, ghost t': Tree<T>, ghost h': nat)
      requires At(c, t) && Short(c, t, h) && node == t.Root() && parent == c.n
      modifies this`mem, this`root, mem.Keys
      ensures At(c', t') && mem.Keys == old(mem).Keys && InCtx(c', Inorder(t')) == InCtx(c, Inorder(t)) && Rb(t', h')
      ensures if again then t'.Root() == parent && (c'.Up? ==> Short(c', t', h')) && !t'.IsRed()
              else CRb(c', h') && (t'.IsRed() ==> c'.Up? && !c'.red)
      ensures again ==> c' == c.up
    {
      EraseReads(mem, c, t, h, root);
      c' := c;
      var sibling, s := parent.right, L;
      if node == sibling {
        sibling, s := parent.left, R;
      }
      if sibling.red {
        SiblingRaisedRb(c, t, h);
        SiblingRaisedInorder(c, t);
        sibling := EraseCase1(parent, sibling, s, c, t);
        c' := SiblingRaised(c);
      }
      again, t', h' := EraseBlackSibling(parent, sibling, s, c', t, h);
      c' := c'.up;
    }

    /** The loop of erase_color.  `NULL` is the first focus. */
    method EraseColor(start: RBNode<T>, ghost c0: Ctx<T>, ghost h0: nat)
      requires At(c0, Leaf) && Short(c0, Leaf, h0) && c0.n == start
      modifies this, mem.Keys
      ensures Synced() && mem.Keys == old(mem).Keys
      ensures Is(mem, shape, root, null) && RedBlack(shape) && Inorder(shape) == InCtx(c0, [])
    {
      var node: RBNode?<T>, parent := null, start;
      ghost var c, t, h := c0, Leaf, h0;
      while true
        invariant At(c, t) && Short(c, t, h) && node == t.Root() && parent == c.n
        invariant mem.Keys == old(mem).Keys && InCtx(c, Inorder(t)) == InCtx(c0, [])
        decreases c
      {
        var again;
        again, c, t, h := EraseStep(node, parent, c, t, h);
        if !again {
          break;
        }
        node := parent;
        var up := node.parent;
        if up == null {
          break;
        }
        parent := up;
      }
      Settle(c, t, h);
    }

    // -------------------------------------------------------------- taking a node out

    /** The leftmost node under `child`, and the node above it. */
    method FindSuccessor(child: RBNode<T>, tmp0: RBNode<T>, ghost r: Tree<T>, ghost above: RBNode?<T>)
      returns (parent: RBNode<T>, successor: RBNode<T>)
      requires Synced() && r.Node? && r.left.Node? && r.n == child && r.left.n == tmp0
      requires Is(mem, r, child, above)
      ensures parent == AboveMin(r) && successor == Min(r).n
    {
      ghost var sub, q := r, above;
      successor := child;
      var tmp: RBNode?<T> := tmp0;
      parent := child;
      while tmp != null
        invariant sub.Node? && Is(mem, sub, successor, q) && tmp == sub.left.Root()
        invariant Min(sub) == Min(r) && (sub.left.Node? ==> AboveMin(sub) == AboveMin(r))
        invariant sub.left.Leaf? ==> parent == AboveMin(r)
        decreases sub
      {
        parent := successor;
        successor := tmp;
        RootIn(mem, sub.left.left, mem[tmp].left, tmp);
        tmp := tmp.left;
        sub, q := sub.left, parent;
      }
    }

    method SpliceFar(successor: RBNode<T>, parent: RBNode<T>, child: RBNode<T>)
      requires Synced() && {successor, parent, child} <= mem.Keys && successor != parent && successor != child
      modifies this`mem, mem.Keys
      ensures Synced() && mem == FarMem(old(mem), successor, parent, child)
    {
      SetKid(parent, L, successor.right);
      SetKid(successor, R, child);
      SetParentColor(child, successor, child.red);
    }

    method SpliceLinks(node: RBNode<T>, successor: RBNode<T>, ghost c: Ctx<T>)
      requires Synced() && {node, successor} <= mem.Keys && Opt(c.Head()) + Opt(mem[node].left) <= mem.Keys
      requires mem[node].left != null && mem[node].left !in {node, successor} + Opt(c.Head()) && successor != node
      requires HangsAt(mem, node, mem[node].parent, c) && (c.Up? ==> c.n !in {node, successor})
      modifies this`mem, this`root, mem.Keys
      ensures Synced() && mem == PlaceLinks(old(mem), node, successor, c)
      ensures root == if c.Up? then old(root) else successor
    {
      var tmp := node.left;
      SetKid(successor, L, tmp);
      SetParentColor(tmp, successor, tmp.red);
      StillHangsAt(old(mem), mem, node, c);
      ChangeChild(node, successor, node.parent, c);
    }

    method SplicePlace(node: RBNode<T>, successor: RBNode<T>, parent: RBNode<T>, child2: RBNode?<T>, ghost c: Ctx<T>)
      returns (rebalance: RBNode?<T>)
      requires Synced() && {node, successor, parent} <= mem.Keys && Opt(child2) + Opt(c.Head()) + Opt(mem[node].left) <= mem.Keys
      requires mem[node].left != null && mem[node].left !in {node, successor} + Opt(c.Head()) && successor != node
      requires HangsAt(mem, node, mem[node].parent, c) && (c.Up? ==> c.n !in {node, successor})
      requires Loose(mem, child2, {node, successor})
      modifies this`mem, this`root, mem.Keys
      ensures Synced() && mem == PlaceMem(old(mem), node, successor, parent, child2, c)
      ensures root == if c.Up? then old(root) else successor
      ensures rebalance == if child2 == null && !old(mem)[successor].red then parent else null
    {
      PlaceLinksCells(mem, node, successor, parent, child2, c);
      SpliceLinks(node, successor, c);
      hide *;
      rebalance := SpliceColors(node, successor, parent, child2);
    }

    /** The colours after the successor took the place of the node. */
    method SpliceColors(node: RBNode<T>, successor: RBNode<T>, parent: RBNode<T>, child2: RBNode?<T>) returns (rebalance: RBNode?<T>)
      requires Synced() && {node, successor, parent} + Opt(child2) <= mem.Keys && successor != node && Loose(mem, child2, {node, successor})
      modifies this`mem, mem.Keys
      ensures Synced() && mem == MSetPC(MPaint(old(mem), child2, parent), successor, old(mem)[node].parent, old(mem)[node].red)
      ensures rebalance == if child2 == null && !old(mem)[successor].red then parent else null
    {
      if child2 != null {
        SetParentColor(child2, parent, false);
        rebalance := null;
      } else {
        rebalance := if !successor.red then parent else null;
      }
      SetParentColor(successor, node.parent, node.red);
    }

    /** Case 2: the successor is the right child. */
    method SpliceNear(node: RBNode<T>, successor: RBNode<T>, ghost c: Ctx<T>, ghost t: Tree<T>) returns (rebalance: RBNode?<T>)
      requires Synced() && Below(mem, c, t, root) && t.Node? && t.left.Node? && t.right.Node? && t.right.left.Leaf?
      requires TwoKids(mem, c, t) && t.n == node && t.right.n == successor
      modifies this`mem, this`root, mem.Keys
      ensures Synced() && Spliced(mem, c, t, root) && mem.Keys == old(mem).Keys
      ensures rebalance == if Min(t.right).right.Leaf? && !Min(t.right).red then successor else null
    {
      NearSpliced(mem, c, t, root);
      rebalance := SplicePlace(node, successor, successor, successor.right, c);
    }

    /** Case 3: the successor is further down. */
    method SpliceDeep(node: RBNode<T>, child: RBNode<T>, parent: RBNode<T>, successor: RBNode<T>, ghost c: Ctx<T>)
      returns (rebalance: RBNode?<T>)
      requires Synced() && {node, child, parent, successor} <= mem.Keys && successor !in {parent, child, node}
      requires FarReady(mem, FarMem(mem, successor, parent, child), node, successor, mem[successor].right, c)
      modifies this`mem, this`root, mem.Keys
      ensures Synced()
      ensures mem == PlaceMem(FarMem(old(mem), successor, parent, child), node, successor, parent, old(mem)[successor].right, c)
      ensures root == if c.Up? then old(root) else successor
      ensures rebalance == if old(mem)[successor].right == null && !old(mem)[successor].red then parent else null
    {
      var child2 := successor.right;
      SpliceFar(successor, parent, child);
      rebalance := SplicePlace(node, successor, parent, child2, c);
    }

    method SpliceFarther(node: RBNode<T>, child: RBNode<T>, tmp: RBNode<T>, ghost c: Ctx<T>, ghost t: Tree<T>)
      returns (rebalance: RBNode?<T>)
      requires Synced() && Below(mem, c, t, root) && t.Node? && t.left.Node? && t.right.Node? && t.right.left.Node?
      requires TwoKids(mem, c, t) && t.n == node && t.right.n == child && tmp == t.right.left.n
      modifies this`mem, this`root, mem.Keys
      ensures Synced() && Spliced(mem, c, t, root) && mem.Keys == old(mem).Keys
      ensures rebalance == if Min(t.right).right.Leaf? && !Min(t.right).red then AboveMin(t.right) else null
    {
      FarSpliced(mem, c, t, root);
      FarKeeps(mem, c, t);
      var parent, successor := FindSuccessor(child, tmp, t.right, node);
      rebalance := SpliceDeep(node, child, parent, successor, c);
    }

    /** Cases 2 and 3: the node has two children. */
    method SpliceSuccessor(node: RBNode<T>, child: RBNode<T>, ghost c: Ctx<T>, ghost t: Tree<T>) returns (rebalance: RBNode?<T>)
      requires Synced() && Below(mem, c, t, root) && t.Node? && t.left.Node? && t.right.Node? && t.n == node && t.right.n == child
      modifies this`mem, this`root, mem.Keys
      ensures Synced() && Spliced(mem, c, t, root) && mem.Keys == old(mem).Keys
      ensures rebalance == if Min(t.right).right.Leaf? && !Min(t.right).red then HoleCtx(c, t).Head() else null
    {
      TwoKidsHold(mem, c, t, root);
      MinCtxHead(Up(R, Min(t.right).n, t.red, t.left, c), t.right);
      var tmp := child.left;
      if tmp == null {
        rebalance := SpliceNear(node, child, c, t);
      } else {
        rebalance := SpliceFarther(node, child, tmp, c, t);
      }
    }

    /** Case 1: no left child. */
    method SpliceRight(node: RBNode<T>, child: RBNode?<T>, ghost c: Ctx<T>, ghost t: Tree<T>) returns (rebalance: RBNode?<T>)
      requires Synced() && Below(mem, c, t, root) && t.Node? && t.left.Leaf? && t.n == node && t.right.Root() == child
      modifies this`mem, this`root, mem.Keys
      ensures Synced() && mem.Keys == old(mem).Keys
      ensures CIs(mem, c, child, root) && Is(mem, t.right.Paint(t.red), child, c.Head())
      ensures rebalance == if child == null && !t.red then c.Head() else null
    {
      KidPointers(mem, c, t, root);
      var pc, black := node.parent, !node.red;
      ChangeChild(node, child, pc, c);
      if child != null {
        SetParentColor(child, pc, !black);
        rebalance := null;
      } else {
        rebalance := if black then pc else null;
      }
      LiftedIs(old(mem), mem, c, t, t.right, old(root), root);
    }

    /** Still case 1, but the child is on the left. */
    method SpliceLeft(node: RBNode<T>, tmp: RBNode<T>, ghost c: Ctx<T>, ghost t: Tree<T>)
      requires Synced() && Below(mem, c, t, root) && t.Node? && t.left.Node? && t.right.Leaf? && t.n == node && t.left.n == tmp
      modifies this`mem, this`root, mem.Keys
      ensures Synced() && mem.Keys == old(mem).Keys
      ensures CIs(mem, c, tmp, root) && Is(mem, t.left.Paint(t.red), tmp, c.Head())
    {
      KidPointers(mem, c, t, root);
      SetParentColor(tmp, node.parent, node.red);
      StillHangsAt(old(mem), mem, node, c);
      ChangeChild(node, tmp, node.parent, c);
      LiftedIs(old(mem), mem, c, t, t.left, old(root), root);
    }

    // -------------------------------------------------------------- the whole tree

    /** Links, colours and black heights are right, and the tree holds the nodes of `mem`. */
    ghost predicate Valid()
      reads this, mem.Keys
    {
      Synced() && Is(mem, shape, root, null) && RedBlack(shape) && NoDup(Inorder(shape)) && mem.Keys == Nodes(shape)
    }

    /** `_hev_rbtree_erase`: the node leaves; returns where the tree is one black node short. */
    method Splice(node: RBNode<T>, ghost c: Ctx<T>, ghost t: Tree<T>)
      returns (rebalance: RBNode?<T>, ghost d: Ctx<T>, ghost x: Tree<T>, ghost h: nat)
      requires Synced() && Below(mem, c, t, root) && t.Node? && t.n == node && RedBlack(Plug(c, t))
      modifies this`mem, this`root, mem.Keys
      ensures Synced() && mem.Keys == old(mem).Keys
      ensures CIs(mem, d, x.Root(), root) && Is(mem, x, x.Root(), d.Head())
      ensures InCtx(d, Inorder(x)) == InCtx(c, Inorder(t.left) + Inorder(t.right))
      ensures if rebalance != null then x == Leaf && Short(d, x, h) && rebalance == d.n
              else CRb(d, h) && Rb(x, h) && (x.IsRed() ==> d.Up? && !d.red)
    {
      KidPointers(mem, c, t, root);
      var child, tmp := node.right, node.left;
      if tmp == null {
        d, x := c, t.right.Paint(t.red);
        h := LiftedRb(c, t, t.right);
        LiftedInorder(c, t, t.right);
        rebalance := SpliceRight(node, child, c, t);
      } else if child == null {
        d, x := c, t.left.Paint(t.red);
        h := LiftedRb(c, t, t.left);
        LiftedInorder(c, t, t.left);
        rebalance := null;
        SpliceLeft(node, tmp, c, t);
      } else {
        d, x := HoleCtx(c, t), Min(t.right).right.Paint(false);
        h := ReplacedRb(c, t);
        ReplacedInorder(c, t);
        rebalance := SpliceSuccessor(node, child, c, t);
      }
    }

    method Unlink(node: RBNode<T>) returns (rebalance: RBNode?<T>, ghost d: Ctx<T>, ghost x: Tree<T>, ghost h: nat)
      requires Valid() && node in mem
      modifies this`mem, this`root, mem.Keys
      ensures mem.Keys == old(mem).Keys - {node} && At(d, x) && InCtx(d, Inorder(x)) == Without(Inorder(shape), node)
      ensures if rebalance != null then x == Leaf && Short(d, x, h) && rebalance == d.n
              else CRb(d, h) && Rb(x, h) && (x.IsRed() ==> d.Up? && !d.red)
    {
      ghost var c, t := EraseFocus(mem, shape, root, node);
      rebalance, d, x, h := Splice(node, c, t);
      ErasedWithout(c, t, d, x);
      Dropped(mem, d, x, root, node);
      mem := mem - {node};
    }

    /** `hev_rbtree_erase`: the tree holds the same nodes in the same order, without this one. */
    method Erase(node: RBNode<T>)
      requires Valid() && node in mem
      modifies this, mem.Keys
      ensures Valid() && Inorder(shape) == Without(old(Inorder(shape)), node) && mem.Keys == old(mem).Keys - {node}
    {
      ghost var was := shape;
      var rebalance;
      ghost var d, x, h;
      rebalance, d, x, h := Unlink(node);
      if rebalance != null {
        EraseColor(rebalance, d, h);
      } else {
        Settle(d, x, h);
      }
      ErasedNodes(was, shape, node);
    }

    /** `hev_rbtree_node_link`: the node becomes a red leaf at the link on side `s` of `parent`. */
    method Link(node: RBNode<T>, parent: RBNode?<T>, s: Side, ghost c: Ctx<T>)
      requires Synced() && node !in mem && parent == c.Head() && (c.Up? ==> s == c.side && c.n in mem)
      modifies this`mem, this`root, node, mem.Keys
      ensures Synced() && mem == LinkMem(old(mem), c, node) && root == if c.Up? then old(root) else node
    {
      if parent == null {
        root := node;
      } else {
        SetKid(parent, s, node);
      }
      node.parent, node.red, node.left, node.right := parent, true, null, null;
      mem := mem[node := Cell(parent, true, null, null)];
    }

    /** A link followed by `hev_rbtree_insert_color`: the node joins the sequence where it was linked. */
    method Insert(node: RBNode<T>, parent: RBNode?<T>, s: Side, ghost c: Ctx<T>)
      requires Valid() && node !in mem && Plug(c, Leaf) == shape && parent == c.Head() && (c.Up? ==> s == c.side)
      modifies this, node, mem.Keys
      ensures Valid() && mem.Keys == old(mem).Keys + {node}
      ensures old(Inorder(shape)) == Before(c) + After(c) && Inorder(shape) == Before(c) + [node] + After(c)
    {
      ghost var was := shape;
      LinkedSequence(c, node);
      LinkedIs(mem, c, node, root);
      LinkedRb(c, node);
      Link(node, parent, s, c);
      InsertColor(node, c, Node(Leaf, node, true, Leaf), 0);
      NodesWith(was, shape, Before(c), node, After(c));
    }

    // -------------------------------------------------------------- traversal

    /** Down along side `s` as far as the links go. */
    method Extreme(start: RBNode<T>, s: Side, ghost t0: Tree<T>, ghost above: RBNode?<T>) returns (n: RBNode<T>)
      requires Synced() && t0.Node? && Is(mem, t0, start, above)
      ensures n == Nearest(s.Flip(), Inorder(t0))
    {
      n := start;
      ghost var t, q := t0, above;
      while n.Kid(s) != null
        invariant t.Node? && Is(mem, t, n, q) && Nearest(s.Flip(), Inorder(t)) == Nearest(s.Flip(), Inorder(t0))
        decreases t
      {
        NearestInTree(s.Flip(), t);
        t, q := Near(s, t), n;
        n := n.Kid(s);
      }
      NearestInTree(s.Flip(), t);
    }

    /** `hev_rbtree_first`. */
    method First() returns (n: RBNode?<T>)
      requires Valid()
      ensures n == if Inorder(shape) == [] then null else Inorder(shape)[0]
    {
      if root == null {
        return null;
      }
      n := Extreme(root, L, shape, null);
    }

    /** `hev_rbtree_last`. */
    method Last() returns (n: RBNode?<T>)
      requires Valid()
      ensures n == if Inorder(shape) == [] then null else Inorder(shape)[|Inorder(shape)| - 1]
    {
      if root == null {
        return null;
      }
      n := Extreme(root, R, shape, null);
    }

    /** Up until an ancestor is reached from its other side. */
    method Climb(start: RBNode<T>, s: Side, ghost c0: Ctx<T>) returns (parent: RBNode?<T>)
      requires Synced() && CIs(mem, c0, start, root) && CDistinct(c0) && start !in CNodes(c0)
      requires start in mem && mem[start].parent == c0.Head()
      ensures parent == Nearest(s, Beyond(s, c0))
    {
      var node: RBNode<T> := start;
      parent := node.parent;
      ghost var c := c0;
      if c.Up? {
        ParentSide(mem, c, node, root);
      }
      while parent != null && node == parent.Kid(s)
        invariant CIs(mem, c, node, root) && CDistinct(c) && node !in CNodes(c) && parent == c.Head()
        invariant c.Up? ==> c.n in mem && mem[c.n].Kid(c.side) == node && mem[c.n].Kid(c.side.Flip()) != node
        invariant Nearest(s, Beyond(s, c)) == Nearest(s, Beyond(s, c0))
        decreases c
      {
        ParentSide(mem, c, node, root);
        BeyondUp(s, c);
        c := c.up;
        node := parent;
        parent := node.parent;
        if c.Up? {
          ParentSide(mem, c, node, root);
        }
      }
      if c.Up? {
        BeyondUp(s, c);
      }
    }

    /** The next node on side `s`. */
    method Step(node: RBNode<T>, s: Side, ghost i: nat) returns (n: RBNode?<T>)
      requires Valid() && node in mem && i < |Inorder(shape)| && Inorder(shape)[i] == node
      ensures n == Neighbour(s, Inorder(shape), i)
    {
      ghost var c, t := EraseFocus(mem, shape, root, node);
      NeighbourOfFocus(s, c, t, i);
      KidPointers(mem, c, t, root);
      var kid := node.Kid(s);
      if kid != null {
        n := Extreme(kid, s.Flip(), Near(s, t), node);
      } else {
        n := Climb(node, s, c);
      }
    }

    /** `hev_rbtree_node_next`. */
    method Next(node: RBNode<T>, ghost i: nat) returns (n: RBNode?<T>)
      requires Valid() && node in mem && i < |Inorder(shape)| && Inorder(shape)[i] == node
      ensures n == if i + 1 < |Inorder(shape)| then Inorder(shape)[i + 1] else null
    {
      n := Step(node, R, i);
    }

    /** `hev_rbtree_node_prev`. */
    method Prev(node: RBNode<T>, ghost i: nat) returns (n: RBNode?<T>)
      requires Valid() && node in mem && i < |Inorder(shape)| && Inorder(shape)[i] == node
      ensures n == if i > 0 then Inorder(shape)[i - 1] else null
    {
      n := Step(node, L, i);
    }
  }
}
