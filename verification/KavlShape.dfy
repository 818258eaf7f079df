/**
 The memory of an AVL tree with subtree sizes, seen as a value: a map from each node to its fields,
 the shape of a subtree, and the frames of a path from the root down to a hole.
 */
module KavlShape {
  import opened ByteOrder
  import opened Sequences
  import opened Sides

  /** An element with its KAVL_HEAD: `p[0]`, `p[1]`, `balance` and `size`. */
  class Elem {
    const data: Bytes
    var left: Elem?
    var right: Elem?
    var balance: int
    var size: int

    constructor (data: Bytes)
      ensures this.data == data
    {
      this.data := data;
      left, right, balance, size := null, null, 0, 0;
    }

    function Kid(s: Side): Elem?
      reads this
    {
      if s == L then left else right
    }
  }

  datatype Cell = Cell(left: Elem?, right: Elem?, balance: int, size: int) {
    ghost function Kid(s: Side): Elem? { if s == L then left else right }

    ghost function SetKid(s: Side, v: Elem?): Cell {
      if s == L then this.(left := v) else this.(right := v)
    }
  }

  type Mem = map<Elem, Cell>

  /** A subtree, with the `balance` and `size` that its nodes store. */
  datatype Tree = Leaf | Node(left: Tree, n: Elem, b: int, z: int, right: Tree) {
    ghost function Root(): Elem? { if Leaf? then null else n }

    /** kavl_size: the stored size, 0 for NULL. */
    ghost function Z(): int { if Leaf? then 0 else z }

    ghost function Near(s: Side): Tree
      requires Node?
    {
      if s == L then left else right
    }

    ghost function Image(): Cell
      requires Node?
    {
      Cell(left.Root(), right.Root(), b, z)
    }
  }

  /** The node with `near` on side `s` and `far` on the other. */
  ghost function Make(s: Side, near: Tree, n: Elem, b: int, z: int, far: Tree): Tree {
    if s == L then Node(near, n, b, z, far) else Node(far, n, b, z, near)
  }

  /** A node on the path: the path goes on to `side`, and `sib` is the subtree on the other side. */
  datatype Frame = Frame(side: Side, n: Elem, b: int, z: int, sib: Tree) {
    ghost function With(t: Tree): Tree { Make(side, t, n, b, z, sib) }

    ghost function Image(kid: Elem?): Cell {
      if side == L then Cell(kid, sib.Root(), b, z) else Cell(sib.Root(), kid, b, z)
    }

    /** The frame with other values of `balance` and `size`. */
    ghost function Mark(b: int, z: int): Frame { this.(b := b, z := z) }
  }

  type Path = seq<Frame>

  /** The whole tree, when the hole of `fs` holds `t`. */
  ghost function Fill(fs: Path, t: Tree): Tree {
    if fs == [] then t else fs[0].With(Fill(fs[1..], t))
  }

  /** What the parent of the path points to: the first node of the path, or what is in the hole. */
  ghost function Head(fs: Path, hole: Elem?): Elem? {
    if fs == [] then hole else fs[0].n
  }

  lemma FillRoot(fs: Path, t: Tree)
    ensures Fill(fs, t).Root() == Head(fs, t.Root())
  {
  }

  lemma {:induction false} FillSum(a: Path, b: Path, t: Tree)
    ensures Fill(a + b, t) == Fill(a, Fill(b, t))
  {
    if a == [] {
      assert a + b == b;
    } else {
      assert (a + b)[0] == a[0] && (a + b)[1..] == a[1..] + b;
      FillSum(a[1..], b, t);
    }
  }

  lemma FillLast(a: Path, f: Frame, t: Tree)
    ensures Fill(a + [f], t) == Fill(a, f.With(t))
  {
    FillSum(a, [f], t);
    assert [f][1..] == [];
  }

  // ---------------------------------------------------------------- in-order sequences

  ghost function Inorder(t: Tree): seq<Elem> {
    if t.Leaf? then [] else Inorder(t.left) + [t.n] + Inorder(t.right)
  }

  ghost function Before(fs: Path): seq<Elem> {
    if fs == [] then [] else (if fs[0].side == L then [] else Inorder(fs[0].sib) + [fs[0].n]) + Before(fs[1..])
  }

  ghost function After(fs: Path): seq<Elem> {
    if fs == [] then [] else After(fs[1..]) + (if fs[0].side == L then [fs[0].n] + Inorder(fs[0].sib) else [])
  }

  lemma InorderWith(f: Frame, t: Tree)
    ensures Inorder(f.With(t)) == Before([f]) + Inorder(t) + After([f])
  {
    BeforeOne(f);
    if f.side == L {
      Assoc(Inorder(t), [f.n], Inorder(f.sib));
      assert [] + Inorder(t) == Inorder(t);
    } else {
      var s := Inorder(f.sib) + [f.n] + Inorder(t);
      assert s + [] == s;
    }
  }

  lemma BeforeOne(f: Frame)
    ensures Before([f]) == if f.side == L then [] else Inorder(f.sib) + [f.n]
    ensures After([f]) == if f.side == L then [f.n] + Inorder(f.sib) else []
  {
    assert [f][1..] == [];
    var s := if f.side == L then [f.n] + Inorder(f.sib) else [];
    assert After([f]) == [] + s == s;
    var r := if f.side == L then [] else Inorder(f.sib) + [f.n];
    assert Before([f]) == r + [] == r;
  }

  lemma {:induction false} BeforeSum(a: Path, b: Path)
    ensures Before(a + b) == Before(a) + Before(b) && After(a + b) == After(b) + After(a)
  {
    if a == [] {
      assert a + b == b;
    } else {
      assert (a + b)[0] == a[0] && (a + b)[1..] == a[1..] + b;
      BeforeSum(a[1..], b);
      var (x, y) := (if a[0].side == L then [] else Inorder(a[0].sib) + [a[0].n], if a[0].side == L then [a[0].n] + Inorder(a[0].sib) else []);
      Assoc(x, Before(a[1..]), Before(b));
      Assoc(After(b), After(a[1..]), y);
    }
  }

  lemma {:induction false} InorderFill(fs: Path, t: Tree)
    ensures Inorder(Fill(fs, t)) == Before(fs) + Inorder(t) + After(fs)
  {
    if fs == [] {
      assert [] + Inorder(t) + [] == Inorder(t);
    } else {
      InorderFill(fs[1..], t);
      InorderWith(fs[0], Fill(fs[1..], t));
      BeforeSum([fs[0]], fs[1..]);
      assert [fs[0]] + fs[1..] == fs;
      Wrap(Before([fs[0]]), Before(fs[1..]), Inorder(t), After(fs[1..]), After([fs[0]]));
    }
  }

  lemma Wrap<T>(a: seq<T>, b: seq<T>, c: seq<T>, d: seq<T>, e: seq<T>)
    ensures a + (b + c + d) + e == (a + b) + c + (d + e)
  {
  }

  // ---------------------------------------------------------------- distinct nodes

  ghost function Nodes(t: Tree): set<Elem> {
    if t.Leaf? then {} else Nodes(t.left) + {t.n} + Nodes(t.right)
  }

  ghost predicate Distinct(t: Tree) {
    t.Node? ==>
      && Distinct(t.left) && Distinct(t.right)
      && t.n !in Nodes(t.left) && t.n !in Nodes(t.right) && Nodes(t.left) !! Nodes(t.right)
  }

  ghost function FNodes(fs: Path): set<Elem> {
    if fs == [] then {} else {fs[0].n} + Nodes(fs[0].sib) + FNodes(fs[1..])
  }

  /** The nodes on the path and beside it are different from each other. */
  ghost predicate FDistinct(fs: Path) {
    fs != [] ==>
      && Distinct(fs[0].sib) && FDistinct(fs[1..])
      && fs[0].n !in Nodes(fs[0].sib) && fs[0].n !in FNodes(fs[1..]) && Nodes(fs[0].sib) !! FNodes(fs[1..])
  }

  lemma {:induction false} NodesInorder(t: Tree)
    ensures forall n: Elem :: n in Nodes(t) <==> n in Inorder(t)
  {
    if t.Node? {
      NodesInorder(t.left);
      NodesInorder(t.right);
    }
  }

  lemma DistinctMake(s: Side, near: Tree, n: Elem, b: int, z: int, far: Tree)
    ensures Nodes(Make(s, near, n, b, z, far)) == {n} + Nodes(near) + Nodes(far)
    ensures Distinct(Make(s, near, n, b, z, far)) <==>
            Distinct(near) && Distinct(far) && n !in Nodes(near) && n !in Nodes(far) && Nodes(near) !! Nodes(far)
  {
  }

  lemma {:induction false} DistinctFill(fs: Path, t: Tree)
    ensures Nodes(Fill(fs, t)) == FNodes(fs) + Nodes(t)
    ensures Distinct(Fill(fs, t)) <==> FDistinct(fs) && Distinct(t) && FNodes(fs) !! Nodes(t)
  {
    if fs != [] {
      DistinctFill(fs[1..], t);
      DistinctMake(fs[0].side, Fill(fs[1..], t), fs[0].n, fs[0].b, fs[0].z, fs[0].sib);
    }
  }

  lemma {:induction false} FDistinctSum(a: Path, b: Path)
    ensures FNodes(a + b) == FNodes(a) + FNodes(b)
    ensures FDistinct(a + b) <==> FDistinct(a) && FDistinct(b) && FNodes(a) !! FNodes(b)
  {
    if a == [] {
      assert a + b == b;
    } else {
      assert (a + b)[0] == a[0] && (a + b)[1..] == a[1..] + b;
      FDistinctSum(a[1..], b);
    }
  }

  lemma FNodesOne(f: Frame)
    ensures FNodes([f]) == {f.n} + Nodes(f.sib)
    ensures FDistinct([f]) <==> Distinct(f.sib) && f.n !in Nodes(f.sib)
  {
    assert [f][1..] == [];
  }

  // ---------------------------------------------------------------- memory matches a shape

  /** Every node of `t` holds what the shape says. */
  ghost predicate Is(m: Mem, t: Tree) {
    t.Node? ==> t.n in m && m[t.n] == t.Image() && Is(m, t.left) && Is(m, t.right)
  }

  /** Every node on the path, and beside it, holds what the frames say; the last one points to `hole`. */
  ghost predicate FIs(m: Mem, fs: Path, hole: Elem?) {
    fs != [] ==>
      && fs[0].n in m && m[fs[0].n] == fs[0].Image(Head(fs[1..], hole))
      && Is(m, fs[0].sib) && FIs(m, fs[1..], hole)
  }

  /** Only the cells in `s` may differ. */
  ghost predicate Changes(m: Mem, m': Mem, s: set<Elem>) {
    forall n <- m :: n !in s ==> n in m' && m'[n] == m[n]
  }

  lemma {:induction false} IsFrame(m: Mem, m': Mem, t: Tree, s: set<Elem>)
    requires Is(m, t) && Changes(m, m', s) && Nodes(t) !! s
    ensures Is(m', t)
  {
    if t.Node? {
      IsFrame(m, m', t.left, s);
      IsFrame(m, m', t.right, s);
    }
  }

  lemma {:induction false} FIsFrame(m: Mem, m': Mem, fs: Path, hole: Elem?, s: set<Elem>)
    requires FIs(m, fs, hole) && Changes(m, m', s) && FNodes(fs) !! s
    ensures FIs(m', fs, hole)
  {
    if fs != [] {
      IsFrame(m, m', fs[0].sib, s);
      FIsFrame(m, m', fs[1..], hole, s);
    }
  }

  lemma IsMake(m: Mem, s: Side, near: Tree, n: Elem, b: int, z: int, far: Tree)
    ensures Is(m, Make(s, near, n, b, z, far)) <==>
            n in m && m[n] == Make(s, near, n, b, z, far).Image() && Is(m, near) && Is(m, far)
  {
  }

  lemma {:induction false} IsFill(m: Mem, fs: Path, t: Tree)
    ensures Is(m, Fill(fs, t)) <==> FIs(m, fs, t.Root()) && Is(m, t)
  {
    if fs != [] {
      IsFill(m, fs[1..], t);
      FillRoot(fs[1..], t);
      IsMake(m, fs[0].side, Fill(fs[1..], t), fs[0].n, fs[0].b, fs[0].z, fs[0].sib);
    }
  }

  lemma {:induction false} FIsSum(m: Mem, a: Path, b: Path, hole: Elem?)
    ensures FIs(m, a + b, hole) <==> FIs(m, a, Head(b, hole)) && FIs(m, b, hole)
  {
    if a == [] {
      assert a + b == b;
    } else {
      assert (a + b)[0] == a[0] && (a + b)[1..] == a[1..] + b;
      FIsSum(m, a[1..], b, hole);
    }
  }

  lemma FIsOne(m: Mem, f: Frame, hole: Elem?)
    ensures FIs(m, [f], hole) <==> f.n in m && m[f.n] == f.Image(hole) && Is(m, f.sib)
  {
    assert [f][1..] == [];
  }

  lemma {:induction false} IsNodes(m: Mem, t: Tree)
    requires Is(m, t)
    ensures Nodes(t) <= m.Keys
  {
    if t.Node? {
      IsNodes(m, t.left);
      IsNodes(m, t.right);
    }
  }

  // ---------------------------------------------------------------- writing on a path

  lemma SplitAt(fs: Path, i: nat)
    requires i < |fs|
    ensures fs == fs[..i] + ([fs[i]] + fs[i + 1..])
  {
  }

  /** What a frame says of its own node. */
  lemma FrameAt(m: Mem, fs: Path, i: nat, hole: Elem?)
    requires i < |fs| && FIs(m, fs, hole)
    ensures fs[i].n in m && m[fs[i].n] == fs[i].Image(if i + 1 < |fs| then fs[i + 1].n else hole) && Is(m, fs[i].sib)
  {
    SplitAt(fs, i);
    FIsSum(m, fs[..i], [fs[i]] + fs[i + 1..], hole);
    FIsSum(m, [fs[i]], fs[i + 1..], hole);
    FIsOne(m, fs[i], Head(fs[i + 1..], hole));
  }

  /** The nodes beside and on the path, apart from the one at `i`. */
  lemma DistinctAt(fs: Path, i: nat)
    requires i < |fs| && FDistinct(fs)
    ensures fs[i].n !in FNodes(fs[..i]) && fs[i].n !in FNodes(fs[i + 1..]) && fs[i].n !in Nodes(fs[i].sib)
    ensures FNodes(fs) == FNodes(fs[..i]) + {fs[i].n} + Nodes(fs[i].sib) + FNodes(fs[i + 1..])
  {
    SplitAt(fs, i);
    FDistinctSum(fs[..i], [fs[i]] + fs[i + 1..]);
    FDistinctSum([fs[i]], fs[i + 1..]);
    FNodesOne(fs[i]);
  }

  /** The node at `i` changes its balance and size. */
  lemma MarkAt(m: Mem, m': Mem, fs: Path, i: nat, hole: Elem?, b: int, z: int)
    requires i < |fs| && FIs(m, fs, hole) && FDistinct(fs)
    requires fs[i].n in m && m' == m[fs[i].n := m[fs[i].n].(balance := b, size := z)]
    ensures FIs(m', fs[i := fs[i].Mark(b, z)], hole)
  {
    var (a, f, c) := (fs[..i], fs[i], fs[i + 1..]);
    SplitAt(fs, i);
    DistinctAt(fs, i);
    FIsSum(m, a, [f] + c, hole);
    FIsSum(m, [f], c, hole);
    FIsOne(m, f, Head(c, hole));
    FIsFrame(m, m', a, f.n, {f.n});
    FIsFrame(m, m', c, hole, {f.n});
    IsFrame(m, m', f.sib, {f.n});
    var g := f.Mark(b, z);
    FIsOne(m', g, Head(c, hole));
    FIsSum(m', [g], c, hole);
    FIsSum(m', a, [g] + c, hole);
    assert fs[i := g] == a + ([g] + c);
  }

  /** The last node of the path gets another child in the hole. */
  lemma RehangAt(m: Mem, m': Mem, fs: Path, hole: Elem?, hole': Elem?)
    requires fs != [] && FIs(m, fs, hole) && FDistinct(fs)
    requires var f := fs[|fs| - 1]; f.n in m && m' == m[f.n := m[f.n].SetKid(f.side, hole')]
    ensures FIs(m', fs, hole')
  {
    var i := |fs| - 1;
    var (a, f) := (fs[..i], fs[i]);
    DistinctAt(fs, i);
    assert fs == a + [f];
    FIsSum(m, a, [f], hole);
    FIsOne(m, f, hole);
    FIsFrame(m, m', a, f.n, {f.n});
    IsFrame(m, m', f.sib, {f.n});
    FIsOne(m', f, hole');
    FIsSum(m', a, [f], hole');
  }
}
