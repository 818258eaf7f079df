/**
 The memory of a red-black tree, seen as a value: a map from each node to its fields,
 and the two shapes that describe it.  A `Tree` is a whole subtree; a `Ctx` is what lies
 above a subtree, from the hole up to the root, so that an algorithm that climbs parent
 pointers is a walk along a `Ctx`.
 */
module RBShape {
  import opened Sequences
  import opened Sides

  /** `parent` and `red` are the two halves of the packed `__parent_color` word. */
  class RBNode<T> {
    const item: T
    var parent: RBNode?<T>
    var red: bool
    var left: RBNode?<T>
    var right: RBNode?<T>

    constructor (item: T)
      ensures this.item == item
    {
      this.item := item;
      parent, red, left, right := null, true, null, null;
    }

    function Kid(s: Side): RBNode?<T>
      reads this
    {
      if s == L then left else right
    }
  }

  datatype Cell<T> = Cell(parent: RBNode?<T>, red: bool, left: RBNode?<T>, right: RBNode?<T>) {
    ghost function Kid(s: Side): RBNode?<T> {
      if s == L then left else right
    }

    ghost function SetKid(s: Side, v: RBNode?<T>): Cell<T> {
      if s == L then this.(left := v) else this.(right := v)
    }
  }

  type Mem<T> = map<RBNode<T>, Cell<T>>

  ghost function MSetKid<T>(m: Mem<T>, n: RBNode<T>, s: Side, v: RBNode?<T>): (m': Mem<T>)
    requires n in m
    ensures m'.Keys == m.Keys
  {
    m[n := m[n].SetKid(s, v)]
  }

  ghost function MSetPC<T>(m: Mem<T>, n: RBNode<T>, p: RBNode?<T>, red: bool): (m': Mem<T>)
    requires n in m
    ensures m'.Keys == m.Keys
  {
    m[n := m[n].(parent := p, red := red)]
  }

  datatype Tree<T> = Leaf | Node(left: Tree<T>, n: RBNode<T>, red: bool, right: Tree<T>) {
    ghost function Root(): RBNode?<T> { if Leaf? then null else n }

    ghost predicate IsRed() { Node? && red }

    ghost function Paint(red: bool): Tree<T> { if Leaf? then Leaf else this.(red := red) }
  }

  /** The node `n` with the subtree `near` on side `s` and `far` on the other. */
  ghost function Mk<T>(s: Side, n: RBNode<T>, red: bool, near: Tree<T>, far: Tree<T>): Tree<T> {
    if s == L then Node(near, n, red, far) else Node(far, n, red, near)
  }

  /** The hole is the child on `side` of `n`; `sib` is the subtree on the other side. */
  datatype Ctx<T> = Top | Up(side: Side, n: RBNode<T>, red: bool, sib: Tree<T>, up: Ctx<T>) {
    ghost function Head(): RBNode?<T> { if Top? then null else n }
  }

  ghost function Plug<T>(c: Ctx<T>, t: Tree<T>): Tree<T> {
    match c
    case Top => t
    case Up(s, n, red, sib, up) => Plug(up, Mk(s, n, red, t, sib))
  }

  // ---------------------------------------------------------------- in-order sequences

  ghost function Inorder<T>(t: Tree<T>): seq<RBNode<T>> {
    match t
    case Leaf => []
    case Node(l, n, _, r) => Inorder(l) + [n] + Inorder(r)
  }

  ghost function Beside<T>(s: Side, near: seq<T>, mid: T, far: seq<T>): seq<T> {
    if s == L then near + [mid] + far else far + [mid] + near
  }

  /** The in-order sequence of the whole tree when the hole holds `mid`. */
  ghost function InCtx<T>(c: Ctx<T>, mid: seq<RBNode<T>>): seq<RBNode<T>> {
    match c
    case Top => mid
    case Up(s, n, _, sib, up) => InCtx(up, Beside(s, mid, n, Inorder(sib)))
  }

  ghost function Before<T>(c: Ctx<T>): seq<RBNode<T>> {
    match c
    case Top => []
    case Up(s, n, _, sib, up) => if s == L then Before(up) else Before(up) + Inorder(sib) + [n]
  }

  ghost function After<T>(c: Ctx<T>): seq<RBNode<T>> {
    match c
    case Top => []
    case Up(s, n, _, sib, up) => if s == L then [n] + Inorder(sib) + After(up) else After(up)
  }

  lemma InorderMk<T>(s: Side, n: RBNode<T>, red: bool, near: Tree<T>, far: Tree<T>)
    ensures Inorder(Mk(s, n, red, near, far)) == Beside(s, Inorder(near), n, Inorder(far))
  {
  }

  lemma {:induction false} InorderPlug<T>(c: Ctx<T>, t: Tree<T>)
    ensures Inorder(Plug(c, t)) == InCtx(c, Inorder(t))
  {
    if c.Up? {
      InorderMk(c.side, c.n, c.red, t, c.sib);
      InorderPlug(c.up, Mk(c.side, c.n, c.red, t, c.sib));
    }
  }

  lemma Regroup<T>(a: seq<T>, b: seq<T>, c: seq<T>, d: seq<T>, e: seq<T>)
    ensures a + (b + c + d) + e == (a + b) + c + (d + e)
  {
  }

  lemma {:induction false} InCtxSplits<T>(c: Ctx<T>, mid: seq<RBNode<T>>)
    ensures InCtx(c, mid) == Before(c) + mid + After(c)
  {
    if c.Up? {
      var (a, b, o) := (Before(c.up), After(c.up), Inorder(c.sib));
      InCtxSplits(c.up, Beside(c.side, mid, c.n, o));
      if c.side == L {
        Regroup(a, [], mid, [c.n] + o, b);
        assert a + [] == a && [] + mid == mid;
        assert mid + [c.n] + o == mid + ([c.n] + o);
      } else {
        Regroup(a, o + [c.n], mid, [], b);
        assert [] + b == b && a + (o + [c.n]) == a + o + [c.n];
        assert o + [c.n] + mid == o + [c.n] + mid + [];
      }
    }
  }

  // ---------------------------------------------------------------- distinct nodes

  ghost function Opt<T>(n: RBNode?<T>): set<RBNode<T>> {
    if n == null then {} else {n}
  }

  ghost function Nodes<T>(t: Tree<T>): set<RBNode<T>> {
    match t
    case Leaf => {}
    case Node(l, n, _, r) => Nodes(l) + {n} + Nodes(r)
  }

  ghost function CNodes<T>(c: Ctx<T>): set<RBNode<T>> {
    match c
    case Top => {}
    case Up(_, n, _, sib, up) => {n} + Nodes(sib) + CNodes(up)
  }

  ghost predicate Distinct<T>(t: Tree<T>) {
    match t
    case Leaf => true
    case Node(l, n, _, r) =>
      Distinct(l) && Distinct(r) && n !in Nodes(l) && n !in Nodes(r) && Nodes(l) !! Nodes(r)
  }

  ghost predicate CDistinct<T>(c: Ctx<T>) {
    match c
    case Top => true
    case Up(_, n, _, sib, up) =>
      Distinct(sib) && CDistinct(up) && n !in Nodes(sib) && n !in CNodes(up) && Nodes(sib) !! CNodes(up)
  }

  lemma DistinctMk<T>(s: Side, n: RBNode<T>, red: bool, a: Tree<T>, b: Tree<T>)
    ensures Distinct(Mk(s, n, red, a, b)) <==>
            Distinct(a) && Distinct(b) && n !in Nodes(a) && n !in Nodes(b) && Nodes(a) !! Nodes(b)
    ensures Nodes(Mk(s, n, red, a, b)) == {n} + Nodes(a) + Nodes(b)
  {
  }

  lemma {:induction false} NodesInorder<T>(t: Tree<T>)
    ensures forall n <- Nodes(t) :: n in Inorder(t)
    ensures forall n <- Inorder(t) :: n in Nodes(t)
  {
    if t.Node? {
      NodesInorder(t.left);
      NodesInorder(t.right);
    }
  }

  lemma NoDupParts<T>(a: seq<T>, x: T, b: seq<T>)
    requires NoDup(a + [x] + b)
    ensures NoDup(a) && NoDup(b) && x !in a && x !in b && forall y <- a :: y !in b
  {
    var s := a + [x] + b;
    assert forall i :: 0 <= i < |a| ==> s[i] == a[i];
    assert s[|a|] == x;
    assert forall i :: 0 <= i < |b| ==> s[|a| + 1 + i] == b[i];
  }

  lemma {:induction false} NoDupDistinct<T>(t: Tree<T>)
    requires NoDup(Inorder(t))
    ensures Distinct(t)
  {
    if t.Node? {
      NoDupParts(Inorder(t.left), t.n, Inorder(t.right));
      NodesInorder(t.left);
      NodesInorder(t.right);
      NoDupDistinct(t.left);
      NoDupDistinct(t.right);
    }
  }

  lemma {:induction false} NoDupSplit<T>(c: Ctx<T>, t: Tree<T>)
    requires NoDup(InCtx(c, Inorder(t)))
    ensures Distinct(t) && CDistinct(c) && Nodes(t) !! CNodes(c)
  {
    if c.Top? {
      NoDupDistinct(t);
    } else {
      var t' := Mk(c.side, c.n, c.red, t, c.sib);
      InorderMk(c.side, c.n, c.red, t, c.sib);
      NoDupSplit(c.up, t');
      DistinctMk(c.side, c.n, c.red, t, c.sib);
    }
  }

  lemma {:induction false} NodesPlug<T>(c: Ctx<T>, t: Tree<T>)
    ensures Nodes(Plug(c, t)) == Nodes(t) + CNodes(c)
  {
    if c.Up? {
      NodesPlug(c.up, Mk(c.side, c.n, c.red, t, c.sib));
    }
  }

  // ---------------------------------------------------------------- memory matches a shape

  /** `p` is the root of `t`, its parent pointer is `par`, and every link and colour agrees. */
  ghost predicate Is<T>(m: Mem<T>, t: Tree<T>, p: RBNode?<T>, par: RBNode?<T>) {
    match t
    case Leaf => p == null
    case Node(l, n, red, r) =>
      p == n && n in m && m[n].parent == par && m[n].red == red && Is(m, l, m[n].left, n) && Is(m, r, m[n].right, n)
  }

  ghost predicate CIs<T>(m: Mem<T>, c: Ctx<T>, child: RBNode?<T>, root: RBNode?<T>) {
    match c
    case Top => child == root
    case Up(s, n, red, sib, up) =>
      n in m && m[n].Kid(s) == child && m[n].red == red && m[n].parent == up.Head()
      && Is(m, sib, m[n].Kid(s.Flip()), n) && CIs(m, up, n, root)
  }

  /** Only the cells in `s` may differ. */
  ghost predicate Changes<T>(m: Mem<T>, m': Mem<T>, s: set<RBNode<T>>) {
    forall n <- m :: n !in s ==> n in m' && m'[n] == m[n]
  }

  lemma IsMk<T>(m: Mem<T>, s: Side, n: RBNode<T>, red: bool, a: Tree<T>, b: Tree<T>, p: RBNode?<T>, par: RBNode?<T>)
    ensures Is(m, Mk(s, n, red, a, b), p, par) <==>
            p == n && n in m && m[n].parent == par && m[n].red == red
            && Is(m, a, m[n].Kid(s), n) && Is(m, b, m[n].Kid(s.Flip()), n)
  {
  }

  lemma {:induction false} IsFrame<T>(m: Mem<T>, m': Mem<T>, t: Tree<T>, p: RBNode?<T>, par: RBNode?<T>, s: set<RBNode<T>>)
    requires Is(m, t, p, par) && Changes(m, m', s) && Nodes(t) !! s
    ensures Is(m', t, p, par)
  {
    if t.Node? {
      IsFrame(m, m', t.left, m[t.n].left, t.n, s);
      IsFrame(m, m', t.right, m[t.n].right, t.n, s);
    }
  }

  lemma {:induction false} CIsFrame<T>(m: Mem<T>, m': Mem<T>, c: Ctx<T>, child: RBNode?<T>, root: RBNode?<T>,
                                       s: set<RBNode<T>>)
    requires CIs(m, c, child, root) && Changes(m, m', s) && CNodes(c) !! s
    ensures CIs(m', c, child, root)
  {
    if c.Up? {
      IsFrame(m, m', c.sib, m[c.n].Kid(c.side.Flip()), c.n, s);
      CIsFrame(m, m', c.up, c.n, root, s);
    }
  }

  /** The subtree moves under another parent, and its root may change colour. */
  lemma IsMoved<T>(m: Mem<T>, m': Mem<T>, t: Tree<T>, p: RBNode?<T>, par: RBNode?<T>, par': RBNode?<T>, red: bool,
                   s: set<RBNode<T>>)
    requires Is(m, t, p, par) && Changes(m, m', s)
    requires t.Node? ==>
      t.n in m' && m'[t.n] == m[t.n].(parent := par', red := red) && Nodes(t.left) !! s && Nodes(t.right) !! s
    ensures Is(m', t.Paint(red), p, par')
  {
    if t.Node? {
      IsFrame(m, m', t.left, m[t.n].left, t.n, s);
      IsFrame(m, m', t.right, m[t.n].right, t.n, s);
    }
  }

  /** What changing the child pointer above a hole does to the memory. */
  ghost function MChangeChild<T>(m: Mem<T>, c: Ctx<T>, v: RBNode?<T>): Mem<T>
    requires c.Up? ==> c.n in m
  {
    if c.Top? then m else MSetKid(m, c.n, c.side, v)
  }

  /** The child pointer above a hole changes, and with it nothing else of the context. */
  lemma CIsChangeChild<T>(m: Mem<T>, m': Mem<T>, c: Ctx<T>, child: RBNode?<T>, root: RBNode?<T>,
                          child': RBNode?<T>, root': RBNode?<T>, s: set<RBNode<T>>)
    requires CIs(m, c, child, root) && Changes(m, m', s)
    requires c.Up? ==> c.n in m' && m'[c.n] == m[c.n].SetKid(c.side, child') && Nodes(c.sib) !! s && CNodes(c.up) !! s
    requires root' == if c.Top? then child' else root
    ensures CIs(m', c, child', root')
  {
    if c.Up? {
      IsFrame(m, m', c.sib, m[c.n].Kid(c.side.Flip()), c.n, s);
      CIsFrame(m, m', c.up, c.n, root, s);
    }
  }

  lemma {:induction false} IsPlug<T>(m: Mem<T>, c: Ctx<T>, t: Tree<T>, p: RBNode?<T>, root: RBNode?<T>)
    requires CIs(m, c, p, root) && Is(m, t, p, c.Head())
    ensures Is(m, Plug(c, t), root, null)
  {
    if c.Up? {
      IsMk(m, c.side, c.n, c.red, t, c.sib, c.n, c.up.Head());
      IsPlug(m, c.up, Mk(c.side, c.n, c.red, t, c.sib), c.n, root);
    }
  }

  lemma {:induction false} IsUnplug<T>(m: Mem<T>, c: Ctx<T>, t: Tree<T>, root: RBNode?<T>)
    requires Is(m, Plug(c, t), root, null)
    ensures CIs(m, c, t.Root(), root) && Is(m, t, t.Root(), c.Head())
  {
    if c.Up? {
      IsUnplug(m, c.up, Mk(c.side, c.n, c.red, t, c.sib), root);
      IsMk(m, c.side, c.n, c.red, t, c.sib, c.n, c.up.Head());
    }
  }

  lemma {:induction false} IsNodes<T>(m: Mem<T>, t: Tree<T>, p: RBNode?<T>, par: RBNode?<T>)
    requires Is(m, t, p, par)
    ensures Nodes(t) <= m.Keys && p == t.Root()
  {
    if t.Node? {
      IsNodes(m, t.left, m[t.n].left, t.n);
      IsNodes(m, t.right, m[t.n].right, t.n);
    }
  }

  /** Every node of a tree is the root of the subtree in some hole. */
  lemma {:induction false} Focus<T>(c: Ctx<T>, t: Tree<T>, x: RBNode<T>) returns (c': Ctx<T>, t': Tree<T>)
    requires x in Nodes(t)
    ensures t'.Node? && t'.n == x && Plug(c', t') == Plug(c, t)
    decreases t
  {
    if t.n == x {
      return c, t;
    } else if x in Nodes(t.left) {
      c', t' := Focus(Up(L, t.n, t.red, t.right, c), t.left, x);
    } else {
      c', t' := Focus(Up(R, t.n, t.red, t.left, c), t.right, x);
    }
  }

  // ---------------------------------------------------------------- the red-black rules

  /** Black height `h` on every path, and no red node has a red child. */
  ghost predicate Rb<T>(t: Tree<T>, h: nat) {
    match t
    case Leaf => h == 0
    case Node(l, _, red, r) =>
      if red then !l.IsRed() && !r.IsRed() && Rb(l, h) && Rb(r, h)
      else h >= 1 && Rb(l, h - 1) && Rb(r, h - 1)
  }

  /** The rules above a hole that expects a subtree of black height `h`. */
  ghost predicate CRb<T>(c: Ctx<T>, h: nat) {
    match c
    case Top => true
    case Up(_, _, red, sib, up) =>
      Rb(sib, h) && if red then !sib.IsRed() && up.Up? && !up.red && CRb(up, h) else CRb(up, h + 1)
  }

  ghost function BlackHeight<T>(t: Tree<T>): nat {
    if t.Leaf? then 0 else BlackHeight(t.left) + if t.red then 0 else 1
  }

  lemma {:induction false} RbHeight<T>(t: Tree<T>, h: nat)
    requires Rb(t, h)
    ensures h == BlackHeight(t)
  {
    if t.Node? {
      RbHeight(t.left, if t.red then h else h - 1);
    }
  }

  ghost predicate RedBlack<T>(t: Tree<T>) {
    !t.IsRed() && Rb(t, BlackHeight(t))
  }

  lemma RbMk<T>(s: Side, n: RBNode<T>, red: bool, a: Tree<T>, b: Tree<T>, h: nat)
    ensures Rb(Mk(s, n, red, a, b), h) <==>
            if red then !a.IsRed() && !b.IsRed() && Rb(a, h) && Rb(b, h) else h >= 1 && Rb(a, h - 1) && Rb(b, h - 1)
  {
  }

  lemma {:induction false} RbPlug<T>(c: Ctx<T>, t: Tree<T>, h: nat)
    requires CRb(c, h) && Rb(t, h)
    requires t.IsRed() ==> c.Up? && !c.red
    ensures RedBlack(Plug(c, t))
  {
    if c.Top? {
      RbHeight(t, h);
    } else {
      RbMk(c.side, c.n, c.red, t, c.sib, if c.red then h else h + 1);
      RbPlug(c.up, Mk(c.side, c.n, c.red, t, c.sib), if c.red then h else h + 1);
    }
  }

  lemma {:induction false} RbUnplug<T>(c: Ctx<T>, t: Tree<T>) returns (h: nat)
    requires RedBlack(Plug(c, t))
    ensures CRb(c, h) && Rb(t, h) && (t.IsRed() ==> c.Up? && !c.red)
  {
    if c.Top? {
      return BlackHeight(t);
    } else {
      h := RbUnplug(c.up, Mk(c.side, c.n, c.red, t, c.sib));
      RbMk(c.side, c.n, c.red, t, c.sib, h);
      h := if c.red then h else h - 1;
    }
  }
}
