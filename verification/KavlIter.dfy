/** Going through the AVL tree in order, from the first element or from a key, and freeing it without a stack. */
module KavlIter {
  import opened ByteOrder
  import opened KavlShape
  import opened KavlRules
  import opened KavlInsert
  import opened KavlErase
  import opened KavlSearch
  import opened KavlMemory
  import opened KavlPaths
  import opened KavlTree
  import opened Sides

  /** What is still to come when the subtrees `gs` are on the stack: each node and what is to its right. */
  ghost function Coming(gs: seq<Tree>): seq<Elem> {
    if gs == [] then [] else Onward(gs[|gs| - 1]) + Coming(gs[..|gs| - 1])
  }

  /** The root of a subtree, and what is to its right. */
  ghost function Onward(t: Tree): seq<Elem> {
    if t.Leaf? then [] else [t.n] + Inorder(t.right)
  }

  /** The subtrees on the stack are in memory, and each is so low that the stack has room for the rest of its path. */
  ghost predicate Held(m: Mem, gs: seq<Tree>) {
    gs != [] ==> Fits(m, gs[..|gs| - 1], gs[|gs| - 1]) && gs[|gs| - 1].Node? && Held(m, gs[..|gs| - 1])
  }

  /** `t` may go on the stack. */
  ghost predicate Fits(m: Mem, gs: seq<Tree>, t: Tree) {
    Is(m, t) && |gs| + H(t) <= 45
  }

  ghost predicate OnStack(stack: seq<Elem?>, gs: seq<Tree>) {
    |gs| <= |stack| && forall i :: 0 <= i < |gs| ==> gs[i].Node? && stack[i] == gs[i].n
  }

  /** A stack of subtrees is a cursor in the sequence: what comes next is a subtree, and then what is on the stack. */
  lemma ComingPush(m: Mem, gs: seq<Tree>, t: Tree)
    requires Held(m, gs) == true && Fits(m, gs, t) == true && t.Node?
    ensures Held(m, gs + [t]) == true && Fits(m, gs + [t], t.left) == true && |gs| < 45
    ensures Inorder(t.left) + Coming(gs + [t]) == Inorder(t) + Coming(gs)
  {
    var hs := gs + [t];
    assert hs[..|hs| - 1] == gs;
    NearRules(t, L);
    InorderNode(t);
    hide H, Inorder;
    var (a, x, c, d) := (Inorder(t.left), [t.n], Inorder(t.right), Coming(gs));
    Four(a, x, c, d);
  }

  lemma Four<T>(a: seq<T>, b: seq<T>, c: seq<T>, d: seq<T>)
    ensures a + (b + c + d) == a + b + c + d
  {
  }

  /** `struct kavl_itr`, with the index of `top` and the subtrees on the stack. */
  class Itr {
    const stack: array<Elem?>
    var top: int
    var right: Elem?
    ghost var gs: seq<Tree>

    constructor ()
      ensures fresh(stack) && stack.Length == MAX_DEPTH
    {
      stack := new Elem?[MAX_DEPTH];
      top, right, gs := -1, null, [];
    }

    /** The iterator stands somewhere in the tree. */
    ghost predicate Valid(tree: Kavl)
      reads this, stack, tree, tree.mem.Keys
    {
      && tree.Valid() && Stacked(tree.mem)
      && (gs != [] ==> gs[|gs| - 1].Node? && right == gs[|gs| - 1].right.Root())
    }

    /** kavl_at */
    function At(): (e: Elem?)
      requires 0 <= top < stack.Length || top == -1
      reads this, stack
      ensures top == -1 ==> e == null
    {
      if top < 0 then null else stack[top]
    }

    /** The elements from the iterator on. */
    ghost function Rest(tree: Kavl): seq<Elem>
      reads this, tree
    {
      Ahead(tree.mem, gs)
    }

    /** The stack holds the subtrees `gs`. */
    ghost predicate Stacked(m: Mem)
      reads this`top, this`gs, stack
    {
      stack.Length == MAX_DEPTH && top + 1 == |gs| && OnStack(stack[..], gs) && Held(m, gs)
    }

    lemma StackedIs(m: Mem)
      ensures Stacked(m) <==> stack.Length == MAX_DEPTH && top + 1 == |gs| && OnStack(stack[..], gs) && Held(m, gs)
    {
    }

    /** `*++itr->top = p` */
    method Push(p: Elem, ghost m: Mem, ghost t: Tree)
      requires Stacked(m) == true && Fits(m, gs, t) == true && t.Node? && t.n == p
      modifies this`top, this`gs, stack
      ensures Stacked(m) == true && gs == old(gs) + [t] && Fits(m, gs, t.left) == true
    {
      ghost var s := stack[..];
      hide *;
      StackedIs(m);
      ComingPush(m, gs, t);
      StackMore(s, gs, t);
      DepthIs();
      top := top + 1;
      stack[top] := p;
      gs := gs + [t];
      assert stack[..] == s[top := p];
      StackedIs(m);
    }

    /** The loop that goes left from p; afterwards the first element of `t` is on top. */
    method GoLeft(tree: Kavl, p0: Elem?, ghost t: Tree)
      requires tree.Valid() && Stacked(tree.mem) == true && Fits(tree.mem, gs, t) == true && p0 == t.Root()
      modifies this`top, this`gs, stack
      ensures Stacked(tree.mem) == true && Ahead(tree.mem, gs) == Inorder(t) + Ahead(tree.mem, old(gs))
    {
      ghost var m := tree.mem;
      ghost var all := Inorder(t) + Ahead(m, gs);
      hide *;
      tree.Opened();
      ghost var u := t;
      var p := p0;
      while p != null
        invariant tree.Synced() == true && tree.mem == m && p == u.Root() && Stacked(m) == true && Fits(m, gs, u) == true
        invariant Inorder(u) + Ahead(m, gs) == all
        decreases u
      {
        StackedIs(m);
        FitsIs(m, gs, u);
        NodeReads(m, u);
        tree.Fields(p);
        AheadPush(m, gs, u);
        Push(p, m, u);
        p := p.left;
        u := u.left;
      }
      StackedIs(m);
      RootNull(u);
      AheadEnd(m, gs, u);
    }

    /** `itr->right = (*itr->top)->p[1]`, with the pieces of a valid iterator together. */
    method SetRight(tree: Kavl)
      requires tree.Valid() && Stacked(tree.mem) == true && gs != []
      modifies this`right
      ensures Valid(tree)
    {
      ghost var m := tree.mem;
      hide *;
      tree.Opened();
      StackedIs(m);
      TopIs(m, stack[..], gs);
      tree.Fields(stack[top]);
      right := stack[top].right;
      ValidIs(tree);
    }

    lemma ValidIs(tree: Kavl)
      ensures Valid(tree) <==> tree.Valid() && Stacked(tree.mem) && (gs != [] ==> gs[|gs| - 1].Node? && right == gs[|gs| - 1].right.Root())
      ensures Rest(tree) == Ahead(tree.mem, gs)
    {
    }

    /** kavl_itr_first, on a tree that is not empty. */
    method First(tree: Kavl)
      requires tree.Valid() && tree.root != null && stack.Length == MAX_DEPTH
      modifies this, stack
      ensures Valid(tree) && Rest(tree) == Inorder(tree.shape) && At() == Rest(tree)[0]
    {
      ghost var m := tree.mem;
      hide *;
      tree.Opened();
      top, gs := -1, [];
      StartStack(m, stack[..], tree.shape);
      StackedIs(m);
      GoLeft(tree, tree.root, tree.shape);
      RootNull(tree.shape);
      AheadSome(m, gs, tree.shape, []);
      SetRight(tree);
      ValidIs(tree);
      AtIs(tree);
    }

    /** kavl_itr_next: whether there is a next element; the iterator moves to it. */
    method Next(tree: Kavl) returns (more: bool)
      requires Valid(tree) && At() != null
      modifies this, stack
      ensures Valid(tree) && old(Rest(tree)) != [] && Rest(tree) == old(Rest(tree))[1..]
      ensures more == (Rest(tree) != []) && At() == if more then Rest(tree)[0] else null
    {
      ghost var m := tree.mem;
      hide *;
      AtIs(tree);
      ValidIs(tree);
      StackedIs(m);
      var p := right;
      ghost var t := gs[|gs| - 1];
      PopStack(m, stack[..], gs);
      top, gs := top - 1, gs[..|gs| - 1];
      StackedIs(m);
      GoLeft(tree, p, t.right);
      more := Land(tree);
      AtIs(tree);
    }

    /** `right` is set unless the stack is empty. */
    method Land(tree: Kavl) returns (some: bool)
      requires tree.Valid() && Stacked(tree.mem) == true
      modifies this`right
      ensures Valid(tree) && some == (gs != []) && Rest(tree) == Ahead(tree.mem, gs)
    {
      hide *;
      StackedIs(tree.mem);
      ValidIs(tree);
      some := top >= 0;
      if some {
        SetRight(tree);
        ValidIs(tree);
      }
    }

    lemma AtIs(tree: Kavl)
      requires Valid(tree)
      ensures gs == [] <==> Rest(tree) == []
      ensures At() == if Rest(tree) == [] then null else Rest(tree)[0]
      ensures At() != null <==> gs != []
    {
      if gs != [] {
        TopIs(tree.mem, stack[..], gs);
      }
    }

    /** The loop of kavl_itr_find: the nodes that are greater stay on the stack. */
    method Seek(tree: Kavl, x: Bytes) returns (p: Elem?, ghost fs: Path, ghost t: Tree)
      requires tree.Valid() && Stacked(tree.mem) == true && gs == []
      modifies this`top, this`gs, stack
      ensures Stacked(tree.mem) == true && Fits(tree.mem, gs, t) == true && p == t.Root()
      ensures Place(tree.shape, fs, t, x) == true && Ahead(tree.mem, gs) == After(fs)
      ensures p != null ==> t.Node? && t.n == p && LengthFirst(x, p.data) == 0
    {
      ghost var m, shape := tree.mem, tree.shape;
      hide *;
      tree.Opened();
      fs, t := [], shape;
      StartStack(m, stack[..], shape);
      StartPlace(shape, x);
      StartAfter(m);
      p := tree.root;
      while p != null
        invariant tree.Synced() == true && p == t.Root() && Stacked(m) == true && Fits(m, gs, t) == true
        invariant Place(shape, fs, t, x) == true && Ahead(m, gs) == After(fs)
        decreases t
      {
        FitsIs(m, gs, t);
        NodeReads(m, t);
        tree.Fields(p);
        PlaceStep(shape, fs, t, x);
        var cmp := LengthFirst(x, p.data);
        if cmp < 0 {
          StackedIs(m);
          GoesLeft(m, gs, fs, t);
          Push(p, m, t);
          p := p.left;
          fs, t := fs + [Down(t, L)], t.left;
        } else if cmp > 0 {
          GoesRight(m, gs, fs, t);
          p := p.right;
          fs, t := fs + [Down(t, R)], t.right;
        } else {
          return;
        }
      }
    }

    /** kavl_itr_find: whether the key is there; the iterator stands at the first element that is not smaller. */
    method Find(tree: Kavl, x: Bytes) returns (found: bool)
      requires tree.Valid() && stack.Length == MAX_DEPTH
      modifies this, stack
      ensures Valid(tree) && FromKey(Inorder(tree.shape), x, found, Rest(tree)) == true
    {
      ghost var m, shape := tree.mem, tree.shape;
      hide *;
      tree.Opened();
      top, gs := -1, [];
      StartStack(m, stack[..], shape);
      StackedIs(m);
      ghost var fs, t;
      var p;
      p, fs, t := Seek(tree, x);
      found := Stop(tree, p, x, fs, t);
    }

    /** After the loop of kavl_itr_find. */
    method Stop(tree: Kavl, p: Elem?, x: Bytes, ghost fs: Path, ghost t: Tree) returns (found: bool)
      requires tree.Valid() && Stacked(tree.mem) == true && Fits(tree.mem, gs, t) == true && p == t.Root()
      requires Place(tree.shape, fs, t, x) == true && Ahead(tree.mem, gs) == After(fs)
      requires p != null ==> t.Node? && t.n == p && LengthFirst(x, p.data) == 0
      modifies this, stack
      ensures Valid(tree) && FromKey(Inorder(tree.shape), x, found, Rest(tree)) == true
    {
      hide *;
      tree.Opened();
      found := p != null;
      if found {
        Arrive(tree, p, x, fs, t);
      } else {
        RootNull(t);
        NotFound(tree.shape, fs, x);
      }
      var some := Land(tree);
    }

    /** The element with the key goes on the stack. */
    method Arrive(tree: Kavl, p: Elem, x: Bytes, ghost fs: Path, ghost t: Tree)
      requires tree.Valid() && Stacked(tree.mem) == true && Fits(tree.mem, gs, t) == true && t.Node? && t.n == p
      requires LengthFirst(x, p.data) == 0 && Place(tree.shape, fs, t, x) == true && Ahead(tree.mem, gs) == After(fs)
      modifies this`top, this`gs, stack
      ensures Stacked(tree.mem) == true && FromKey(Inorder(tree.shape), x, true, Ahead(tree.mem, gs)) == true
    {
      hide *;
      tree.Opened();
      StackedIs(tree.mem);
      FoundHere(tree.mem, gs, tree.shape, fs, t, x);
      Push(p, tree.mem, t);
    }
  }

  /** What is to come, for a stack that is held. */
  ghost function Ahead(m: Mem, gs: seq<Tree>): seq<Elem> {
    if Held(m, gs) then Coming(gs) else []
  }

  lemma AheadPush(m: Mem, gs: seq<Tree>, t: Tree)
    requires Held(m, gs) == true && Fits(m, gs, t) == true && t.Node?
    ensures Inorder(t.left) + Ahead(m, gs + [t]) == Inorder(t) + Ahead(m, gs)
  {
    hide Held, Fits, Coming, Inorder;
    ComingPush(m, gs, t);
  }

  lemma AheadEnd(m: Mem, gs: seq<Tree>, u: Tree)
    requires u == Leaf
    ensures Inorder(u) + Ahead(m, gs) == Ahead(m, gs)
  {
  }

  lemma DepthIs()
    ensures 46 <= MAX_DEPTH
  {
  }

  lemma FitsIs(m: Mem, gs: seq<Tree>, t: Tree)
    requires Fits(m, gs, t)
    ensures Is(m, t) == true
  {
  }

  lemma StackMore(s: seq<Elem?>, gs: seq<Tree>, t: Tree)
    requires OnStack(s, gs) == true && |gs| < |s| && t.Node?
    ensures OnStack(s[|gs| := t.n], gs + [t]) == true
  {
  }

  /** `rest` is what is not smaller than `x` in the sequence: it starts with the element that has the key, if there is one. */
  ghost predicate FromKey(s: seq<Elem>, x: Bytes, found: bool, rest: seq<Elem>) {
    && found == (Holder(s, x) != null) && (if found then 1 else 0) <= Rank(s, x) <= |s|
    && rest == s[Rank(s, x) - (if found then 1 else 0)..]
  }

  lemma TopIs(m: Mem, stack: seq<Elem?>, gs: seq<Tree>)
    requires Held(m, gs) == true && OnStack(stack, gs) == true && gs != []
    ensures var t := gs[|gs| - 1];
      && |gs| <= |stack| && t.Node? && stack[|gs| - 1] == t.n && t.n in m && m[t.n].right == t.right.Root()
      && Ahead(m, gs) != [] && Ahead(m, gs)[0] == t.n
  {
  }

  lemma StartStack(m: Mem, stack: seq<Elem?>, shape: Tree)
    requires Is(m, shape) == true && Sound(shape) == true
    ensures OnStack(stack, []) == true && Held(m, []) == true && Fits(m, [], shape) == true && Ahead(m, []) == []
  {
    HeightFits(shape);
  }

  lemma AheadSome(m: Mem, gs: seq<Tree>, t: Tree, before: seq<Tree>)
    requires t.Node? && before == [] && Ahead(m, gs) == Inorder(t) + Ahead(m, before)
    ensures gs != [] && Ahead(m, gs) == Inorder(t)
  {
    assert Ahead(m, before) == [];
    assert Inorder(t) + [] == Inorder(t);
  }

  /** The top of the stack is passed; what is to its right comes next. */
  lemma PopStack(m: Mem, stack: seq<Elem?>, gs: seq<Tree>)
    requires Held(m, gs) == true && OnStack(stack, gs) == true && gs != []
    ensures var (t, hs) := (gs[|gs| - 1], gs[..|gs| - 1]);
      && t.Node? && Held(m, hs) == true && OnStack(stack, hs) == true && Fits(m, hs, t.right) == true
      && Ahead(m, gs) != [] && Ahead(m, gs)[1..] == Inorder(t.right) + Ahead(m, hs)
  {
    var (t, hs) := (gs[|gs| - 1], gs[..|gs| - 1]);
    PopHeld(m, gs);
    hide Held, Fits, Inorder;
    DropFirst(t.n, Inorder(t.right), Coming(hs));
  }

  lemma PopHeld(m: Mem, gs: seq<Tree>)
    requires Held(m, gs) && gs != []
    ensures var (t, hs) := (gs[|gs| - 1], gs[..|gs| - 1]); t.Node? && Held(m, hs) && Fits(m, hs, t.right)
  {
    var t := gs[|gs| - 1];
    assert Fits(m, gs[..|gs| - 1], t);
    NearRules(t, R);
    IsNear(m, t, R);
    hide H, Is, Held;
  }

  lemma DropFirst<T>(x: T, r: seq<T>, c: seq<T>)
    ensures ([x] + r + c)[1..] == r + c
  {
  }

  lemma DropMiddle<T>(a: seq<T>, l: seq<T>, n: seq<T>, r: seq<T>, b: seq<T>)
    ensures (a + (l + n + r) + b)[|a| + |l|..] == n + r + b
  {
  }

  lemma StartAfter(m: Mem)
    ensures Ahead(m, []) == After([])
  {
  }

  lemma GoesLeft(m: Mem, gs: seq<Tree>, fs: Path, t: Tree)
    requires Held(m, gs) == true && Fits(m, gs, t) == true && t.Node? && Ahead(m, gs) == After(fs)
    ensures Ahead(m, gs + [t]) == After(fs + [Down(t, L)])
  {
    ComingPush(m, gs, t);
    DownFill(fs, t, L);
    assert (gs + [t])[..|gs|] == gs;
  }

  lemma GoesRight(m: Mem, gs: seq<Tree>, fs: Path, t: Tree)
    requires Fits(m, gs, t) == true && t.Node?
    ensures Fits(m, gs, t.right) == true && After(fs + [Down(t, R)]) == After(fs)
  {
    NearRules(t, R);
    DownFill(fs, t, R);
    assert [] + After(fs) == After(fs);
  }

  /** The key is at the root of `t`: the iterator gets there, and what is to come starts with it. */
  lemma FoundHere(m: Mem, gs: seq<Tree>, shape: Tree, fs: Path, t: Tree, x: Bytes)
    requires Sound(shape) == true && Place(shape, fs, t, x) == true && t.Node? && LengthFirst(x, t.n.data) == 0
    requires Held(m, gs) == true && Fits(m, gs, t) == true && Ahead(m, gs) == After(fs)
    ensures FromKey(Inorder(shape), x, true, Ahead(m, gs + [t])) == true
  {
    hide Place, Sound, Held, Fits, Rank, Holder, Before, After, LengthFirst;
    PlaceStep(shape, fs, t, x);
    PlaceInorder(shape, fs, t, x);
    PlaceInorderLeft(t);
    ComingPush(m, gs, t);
    InorderNode(t);
    hide Inorder, Ahead, Coming, Onward;
    AheadTop(m, gs, t);
    DropMiddle(Before(fs), Inorder(t.left), [t.n], Inorder(t.right), After(fs));
  }

  lemma AheadTop(m: Mem, gs: seq<Tree>, t: Tree)
    requires t.Node? && Held(m, gs) == true && Held(m, gs + [t]) == true
    ensures Ahead(m, gs + [t]) == [t.n] + Inorder(t.right) + Ahead(m, gs)
  {
    hide Held, Inorder;
    assert (gs + [t])[..|gs|] == gs;
  }

  lemma PlaceInorderLeft(t: Tree)
    requires Sized(t) && t.Node?
    ensures |Inorder(t.left)| == t.left.Z()
  {
    CountInorder(t.left);
    SizedZ(t.left);
  }

  lemma NotFound(shape: Tree, fs: Path, x: Bytes)
    requires Sound(shape) == true && Place(shape, fs, Leaf, x) == true
    ensures FromKey(Inorder(shape), x, false, After(fs)) == true
  {
    hide Sound, Place, Rank, Before, After;
    PlaceNone(shape, fs, x);
  }
}
