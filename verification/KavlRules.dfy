/** Balance and size: what rotations, a new leaf and a lost node do to them. */
module KavlRules {
  import opened KavlShape
  import opened Sides

  ghost function Max(a: nat, b: nat): nat { if a >= b then a else b }

  ghost function H(t: Tree): nat {
    if t.Leaf? then 0 else 1 + Max(H(t.left), H(t.right))
  }

  ghost function Count(t: Tree): nat {
    if t.Leaf? then 0 else Count(t.left) + 1 + Count(t.right)
  }

  /** Every stored balance is right height minus left height, within -1..1. */
  ghost predicate Avl(t: Tree) {
    t.Node? ==> -1 <= t.b <= 1 && t.b == H(t.right) - H(t.left) && Avl(t.left) && Avl(t.right)
  }

  /** Every stored size is the number of nodes of the subtree. */
  ghost predicate Sized(t: Tree) {
    t.Node? ==> t.z == Count(t.left) + 1 + Count(t.right) && Sized(t.left) && Sized(t.right)
  }

  /** `b1` of the source: the balance of a node that leans away from side `s`. */
  function Away(s: Side): int { if s == L then 1 else -1 }

  lemma {:induction false} CountInorder(t: Tree)
    ensures |Inorder(t)| == Count(t)
  {
    if t.Node? {
      CountInorder(t.left);
      CountInorder(t.right);
    }
  }

  lemma SizedZ(t: Tree)
    requires Sized(t)
    ensures t.Z() == Count(t)
  {
  }

  // ---------------------------------------------------------------- the same along a path

  ghost function FH(fs: Path, h: nat): nat {
    if fs == [] then h else 1 + Max(FH(fs[1..], h), H(fs[0].sib))
  }

  ghost function FCount(fs: Path, c: nat): nat {
    if fs == [] then c else FCount(fs[1..], c) + 1 + Count(fs[0].sib)
  }

  /** The balance of a frame whose path side has height `h`. */
  ghost function Lean(f: Frame, h: nat): int {
    if f.side == L then H(f.sib) - h else h - H(f.sib)
  }

  ghost predicate FrameAvl(f: Frame, h: nat) {
    -1 <= f.b <= 1 && f.b == Lean(f, h) && Avl(f.sib)
  }

  ghost predicate FAvl(fs: Path, h: nat) {
    fs != [] ==> FrameAvl(fs[0], FH(fs[1..], h)) && FAvl(fs[1..], h)
  }

  ghost predicate FSized(fs: Path, c: nat) {
    fs != [] ==> fs[0].z == FCount(fs[1..], c) + 1 + Count(fs[0].sib) && Sized(fs[0].sib) && FSized(fs[1..], c)
  }

  lemma WithRules(f: Frame, t: Tree)
    ensures H(f.With(t)) == 1 + Max(H(t), H(f.sib)) && Count(f.With(t)) == Count(t) + 1 + Count(f.sib)
    ensures Avl(f.With(t)) <==> FrameAvl(f, H(t)) && Avl(t)
    ensures Sized(f.With(t)) <==> f.z == Count(t) + 1 + Count(f.sib) && Sized(f.sib) && Sized(t)
  {
  }

  lemma {:induction false} FillRules(fs: Path, t: Tree)
    ensures H(Fill(fs, t)) == FH(fs, H(t)) && Count(Fill(fs, t)) == FCount(fs, Count(t))
    ensures Avl(Fill(fs, t)) <==> FAvl(fs, H(t)) && Avl(t)
    ensures Sized(Fill(fs, t)) <==> FSized(fs, Count(t)) && Sized(t)
  {
    if fs != [] {
      FillRules(fs[1..], t);
      WithRules(fs[0], Fill(fs[1..], t));
    }
  }

  lemma {:induction false} FSumRules(a: Path, b: Path, h: nat, c: nat)
    ensures FH(a + b, h) == FH(a, FH(b, h)) && FCount(a + b, c) == FCount(a, FCount(b, c))
    ensures FAvl(a + b, h) <==> FAvl(a, FH(b, h)) && FAvl(b, h)
    ensures FSized(a + b, c) <==> FSized(a, FCount(b, c)) && FSized(b, c)
  {
    if a == [] {
      assert a + b == b;
    } else {
      assert (a + b)[0] == a[0] && (a + b)[1..] == a[1..] + b;
      FSumRules(a[1..], b, h, c);
    }
  }

  lemma FOneRules(f: Frame, h: nat, c: nat)
    ensures FH([f], h) == 1 + Max(h, H(f.sib)) && FCount([f], c) == c + 1 + Count(f.sib)
    ensures FAvl([f], h) <==> FrameAvl(f, h)
    ensures FSized([f], c) <==> f.z == c + 1 + Count(f.sib) && Sized(f.sib)
  {
    assert [f][1..] == [];
  }

  lemma MakeRules(s: Side, near: Tree, n: Elem, b: int, z: int, far: Tree)
    ensures var t := Make(s, near, n, b, z, far);
      && H(t) == 1 + Max(H(near), H(far)) && Count(t) == Count(near) + 1 + Count(far)
      && (Avl(t) <==> -1 <= b <= 1 && b == (if s == L then H(far) - H(near) else H(near) - H(far)) && Avl(near) && Avl(far))
      && (Sized(t) <==> z == Count(near) + 1 + Count(far) && Sized(near) && Sized(far))
  {
  }

  /** A node, seen from side `s`. */
  lemma NearRules(t: Tree, s: Side)
    requires t.Node?
    ensures var (near, far) := (if s == L then t.left else t.right, if s == L then t.right else t.left);
      && H(t) == 1 + Max(H(near), H(far)) && Count(t) == Count(near) + 1 + Count(far)
      && (Avl(t) <==> -1 <= t.b <= 1 && t.b == (if s == L then H(far) - H(near) else H(near) - H(far)) && Avl(near) && Avl(far))
      && (Sized(t) <==> t.z == Count(near) + 1 + Count(far) && Sized(near) && Sized(far))
  {
  }

  // ---------------------------------------------------------------- rotations

  /** kavl_rotate1 towards `dir`: (a,(b,c)q)p => ((a,b)p,c)q, with `qb` and `pb` the balances stored after it. */
  ghost function Rot1(t: Tree, dir: Side, qb: int, pb: int): Tree
    requires t.Node? && t.Near(dir.Flip()).Node?
  {
    var q := t.Near(dir.Flip());
    Make(dir, Make(dir, t.Near(dir), t.n, pb, t.z - (q.z - q.Near(dir).Z()), q.Near(dir)), q.n, qb, t.z, q.Near(dir.Flip()))
  }

  /** kavl_rotate2 towards `dir`: (a,((b,c)r,d)q)p => ((a,b)p,(c,d)q)r. */
  ghost function Rot2(t: Tree, dir: Side): Tree
    requires t.Node? && t.Near(dir.Flip()).Node? && t.Near(dir.Flip()).Near(dir).Node?
  {
    var opp := dir.Flip();
    var q := t.Near(opp);
    var r := q.Near(dir);
    var (qb, pb) := Rot2Balances(r.b, dir);
    Make(dir,
      Make(dir, t.Near(dir), t.n, pb, t.z - (q.z - r.Near(dir).Z()), r.Near(dir)), r.n, 0, t.z,
      Make(dir, r.Near(opp), q.n, qb, q.z - (r.Near(dir).Z() + 1), q.Near(opp)))
  }

  /** The rules of what one rotation makes. */
  lemma Rot1Rules(t: Tree, dir: Side, qb: int, pb: int)
    requires t.Node? && t.Near(dir.Flip()).Node?
    ensures var q := t.Near(dir.Flip());
      var (a, b, c, z) := (t.Near(dir), q.Near(dir), q.Near(dir.Flip()), t.z - (q.z - q.Near(dir).Z()));
      var p' := Make(dir, a, t.n, pb, z, b);
      && Rot1(t, dir, qb, pb) == Make(dir, p', q.n, qb, t.z, c)
      && H(p') == 1 + Max(H(a), H(b)) && H(Rot1(t, dir, qb, pb)) == 1 + Max(H(p'), H(c))
      && Count(Rot1(t, dir, qb, pb)) == Count(a) + 1 + Count(b) + 1 + Count(c)
      && (Avl(Rot1(t, dir, qb, pb)) <==>
          && -1 <= qb <= 1 && qb == (if dir == L then H(c) - H(p') else H(p') - H(c)) && Avl(c)
          && -1 <= pb <= 1 && pb == (if dir == L then H(b) - H(a) else H(a) - H(b)) && Avl(a) && Avl(b))
      && (Sized(Rot1(t, dir, qb, pb)) <==>
          && t.z == Count(a) + 1 + Count(b) + 1 + Count(c) && z == Count(a) + 1 + Count(b) && Sized(a) && Sized(b) && Sized(c))
  {
    hide H, Count, Avl, Sized, Make;
    var q := t.Near(dir.Flip());
    var (a, b, c, z) := (t.Near(dir), q.Near(dir), q.Near(dir.Flip()), t.z - (q.z - q.Near(dir).Z()));
    MakeRules(dir, a, t.n, pb, z, b);
    MakeRules(dir, Make(dir, a, t.n, pb, z, b), q.n, qb, t.z, c);
  }

  /** The balances that kavl_rotate2 gives to q and p. */
  ghost function Rot2Balances(r: int, dir: Side): (int, int) {
    if r == Away(dir) then (0, -Away(dir)) else if r == 0 then (0, 0) else (Away(dir), 0)
  }

  /** The rules of what two rotations make. */
  lemma Rot2Rules(t: Tree, dir: Side)
    requires t.Node? && t.Near(dir.Flip()).Node? && t.Near(dir.Flip()).Near(dir).Node?
    ensures var q := t.Near(dir.Flip());
      var r := q.Near(dir);
      var (a, b, c, d) := (t.Near(dir), r.Near(dir), r.Near(dir.Flip()), q.Near(dir.Flip()));
      var (qb, pb) := Rot2Balances(r.b, dir);
      var (pz, qz) := (t.z - (q.z - b.Z()), q.z - (b.Z() + 1));
      var (hp, hq) := (1 + Max(H(a), H(b)), 1 + Max(H(c), H(d)));
      && H(Rot2(t, dir)) == 1 + Max(hp, hq)
      && Count(Rot2(t, dir)) == Count(a) + 1 + Count(b) + 1 + (Count(c) + 1 + Count(d))
      && (Avl(Rot2(t, dir)) <==>
          && hp == hq && Avl(a) && Avl(b) && Avl(c) && Avl(d)
          && -1 <= qb <= 1 && qb == (if dir == L then H(d) - H(c) else H(c) - H(d))
          && -1 <= pb <= 1 && pb == (if dir == L then H(b) - H(a) else H(a) - H(b)))
      && (Sized(Rot2(t, dir)) <==>
          && t.z == Count(a) + 1 + Count(b) + 1 + (Count(c) + 1 + Count(d)) && pz == Count(a) + 1 + Count(b)
          && qz == Count(c) + 1 + Count(d) && Sized(a) && Sized(b) && Sized(c) && Sized(d))
  {
    hide H, Count, Avl, Sized, Make;
    var q := t.Near(dir.Flip());
    var r := q.Near(dir);
    var (a, b, c, d) := (t.Near(dir), r.Near(dir), r.Near(dir.Flip()), q.Near(dir.Flip()));
    var (qb, pb) := Rot2Balances(r.b, dir);
    var (pz, qz) := (t.z - (q.z - b.Z()), q.z - (b.Z() + 1));
    MakeRules(dir, a, t.n, pb, pz, b);
    MakeRules(dir, c, q.n, qb, qz, d);
    MakeRules(dir, Make(dir, a, t.n, pb, pz, b), r.n, 0, t.z, Make(dir, c, q.n, qb, qz, d));
  }

  /** The node leans too far away from `dir`, and everything below it is in balance. */
  ghost predicate Tipped(t: Tree, dir: Side) {
    t.Node? && Avl(t.left) && Avl(t.right) && H(t.Near(dir.Flip())) == H(t.Near(dir)) + 2
  }

  lemma TippedNodes(t: Tree, dir: Side)
    requires Tipped(t, dir)
    ensures t.Near(dir.Flip()).Node? && (t.Near(dir.Flip()).b == -Away(dir) ==> t.Near(dir.Flip()).Near(dir).Node?)
  {
    hide H, Avl;
    NearRules(t, dir);
    if t.Near(dir.Flip()).Node? {
      NearRules(t.Near(dir.Flip()), dir);
    }
    LeafHeight();
  }

  lemma LeafHeight()
    ensures H(Leaf) == 0 && forall t: Tree :: t.Node? ==> H(t) > 0
  {
  }

  /** The farther grandchild is the higher one: one rotation, and the subtree gets lower. */
  lemma Rot1Lowers(t: Tree, dir: Side)
    requires Tipped(t, dir) && t.Near(dir.Flip()).Node? && t.Near(dir.Flip()).b == Away(dir)
    ensures Avl(Rot1(t, dir, 0, 0)) && H(Rot1(t, dir, 0, 0)) == H(t) - 1
  {
    hide H, Count, Avl, Sized, Make;
    var q := t.Near(dir.Flip());
    NearRules(t, dir);
    NearRules(q, dir);
    Rot1Rules(t, dir, 0, 0);
  }

  /** Both grandchildren are as high: one rotation, and the subtree stays as high. */
  lemma Rot1Stays(t: Tree, dir: Side)
    requires Tipped(t, dir) && t.Near(dir.Flip()).Node? && t.Near(dir.Flip()).b == 0
    ensures Avl(Rot1(t, dir, -Away(dir), Away(dir))) && H(Rot1(t, dir, -Away(dir), Away(dir))) == H(t)
  {
    hide H, Count, Avl, Sized, Make;
    var q := t.Near(dir.Flip());
    NearRules(t, dir);
    NearRules(q, dir);
    Rot1Rules(t, dir, -Away(dir), Away(dir));
  }

  /** The nearer grandchild is the higher one: two rotations, and the subtree gets lower. */
  lemma Rot2Lowers(t: Tree, dir: Side)
    requires Tipped(t, dir) && t.Near(dir.Flip()).Node? && t.Near(dir.Flip()).Near(dir).Node? && t.Near(dir.Flip()).b == -Away(dir)
    ensures Avl(Rot2(t, dir)) && H(Rot2(t, dir)) == H(t) - 1
  {
    hide H, Count, Avl, Sized, Make;
    var q := t.Near(dir.Flip());
    var r := q.Near(dir);
    NearRules(t, dir);
    NearRules(q, dir);
    NearRules(r, dir);
    Rot2Rules(t, dir);
  }

  lemma Rot1Sized(t: Tree, dir: Side, qb: int, pb: int)
    requires t.Node? && t.Near(dir.Flip()).Node? && Sized(t)
    ensures Sized(Rot1(t, dir, qb, pb)) && Count(Rot1(t, dir, qb, pb)) == Count(t)
  {
    hide H, Count, Avl, Sized, Make;
    var q := t.Near(dir.Flip());
    NearRules(t, dir);
    NearRules(q, dir);
    SizedZ(q.Near(dir));
    Rot1Rules(t, dir, qb, pb);
  }

  lemma Rot2Sized(t: Tree, dir: Side)
    requires t.Node? && t.Near(dir.Flip()).Node? && t.Near(dir.Flip()).Near(dir).Node? && Sized(t)
    ensures Sized(Rot2(t, dir)) && Count(Rot2(t, dir)) == Count(t)
  {
    hide H, Count, Avl, Sized, Make;
    var q := t.Near(dir.Flip());
    var r := q.Near(dir);
    NearRules(t, dir);
    NearRules(q, dir);
    NearRules(r, dir);
    SizedZ(r.Near(dir));
    Rot2Rules(t, dir);
  }

  lemma Rot1Inorder(t: Tree, dir: Side, qb: int, pb: int)
    requires t.Node? && t.Near(dir.Flip()).Node?
    ensures Inorder(Rot1(t, dir, qb, pb)) == Inorder(t)
  {
    var q := t.Near(dir.Flip());
    if dir == L {
      Four(Inorder(t.left), [t.n], Inorder(q.left), [q.n], Inorder(q.right));
    } else {
      Four(Inorder(q.left), [q.n], Inorder(q.right), [t.n], Inorder(t.right));
    }
  }

  lemma Four<T>(a: seq<T>, p: seq<T>, b: seq<T>, q: seq<T>, c: seq<T>)
    ensures (a + p + b) + q + c == a + p + (b + q + c)
  {
  }

  lemma Rot2Inorder(t: Tree, dir: Side)
    requires t.Node? && t.Near(dir.Flip()).Node? && t.Near(dir.Flip()).Near(dir).Node?
    ensures Inorder(Rot2(t, dir)) == Inorder(t)
  {
    hide Inorder;
    var q := t.Near(dir.Flip());
    var r := q.Near(dir);
    InorderNode(t);
    InorderNode(q);
    InorderNode(r);
    InorderNode(Rot2(t, dir));
    InorderNode(Rot2(t, dir).left);
    InorderNode(Rot2(t, dir).right);
    if dir == L {
      Six(Inorder(t.left), [t.n], Inorder(r.left), [r.n], Inorder(r.right), [q.n], Inorder(q.right));
    } else {
      Six'(Inorder(q.left), [q.n], Inorder(r.left), [r.n], Inorder(r.right), [t.n], Inorder(t.right));
    }
  }

  lemma InorderNode(t: Tree)
    requires t.Node?
    ensures Inorder(t) == Inorder(t.left) + [t.n] + Inorder(t.right)
  {
  }

  lemma Six<T>(a: seq<T>, p: seq<T>, b: seq<T>, r: seq<T>, c: seq<T>, q: seq<T>, d: seq<T>)
    ensures (a + p + b) + r + (c + q + d) == a + p + ((b + r + c) + q + d)
  {
  }

  lemma Six'<T>(d: seq<T>, q: seq<T>, b: seq<T>, r: seq<T>, c: seq<T>, p: seq<T>, a: seq<T>)
    ensures (d + q + b) + r + (c + p + a) == (d + q + (b + r + c)) + p + a
  {
  }

  lemma Rot1Distinct(t: Tree, dir: Side, qb: int, pb: int)
    requires t.Node? && t.Near(dir.Flip()).Node?
    ensures (Distinct(t) ==> Distinct(Rot1(t, dir, qb, pb))) && Nodes(Rot1(t, dir, qb, pb)) == Nodes(t)
  {
    hide Distinct, Nodes, Make;
    var q := t.Near(dir.Flip());
    DistinctNear(t, dir);
    DistinctNear(q, dir);
    var (a, b, c, z) := (t.Near(dir), q.Near(dir), q.Near(dir.Flip()), t.z - (q.z - q.Near(dir).Z()));
    DistinctMake(dir, a, t.n, pb, z, b);
    DistinctMake(dir, Make(dir, a, t.n, pb, z, b), q.n, qb, t.z, c);
  }

  lemma DistinctNear(t: Tree, s: Side)
    requires t.Node?
    ensures var (near, far) := (t.Near(s), t.Near(s.Flip()));
      && Nodes(t) == {t.n} + Nodes(near) + Nodes(far)
      && (Distinct(t) <==> Distinct(near) && Distinct(far) && t.n !in Nodes(near) && t.n !in Nodes(far) && Nodes(near) !! Nodes(far))
  {
  }

  lemma Rot2Distinct(t: Tree, dir: Side)
    requires t.Node? && t.Near(dir.Flip()).Node? && t.Near(dir.Flip()).Near(dir).Node?
    ensures (Distinct(t) ==> Distinct(Rot2(t, dir))) && Nodes(Rot2(t, dir)) == Nodes(t)
  {
    hide Distinct, Nodes, Make;
    var q := t.Near(dir.Flip());
    var r := q.Near(dir);
    DistinctNear(t, dir);
    DistinctNear(q, dir);
    DistinctNear(r, dir);
    var (a, b, c, d) := (t.Near(dir), r.Near(dir), r.Near(dir.Flip()), q.Near(dir.Flip()));
    var (qb, pb) := Rot2Balances(r.b, dir);
    var (pz, qz) := (t.z - (q.z - b.Z()), q.z - (b.Z() + 1));
    DistinctMake(dir, a, t.n, pb, pz, b);
    DistinctMake(dir, c, q.n, qb, qz, d);
    DistinctMake(dir, Make(dir, a, t.n, pb, pz, b), r.n, 0, t.z, Make(dir, c, q.n, qb, qz, d));
  }

  // ---------------------------------------------------------------- how tall a tree can be

  ghost function Fib(n: nat): nat {
    if n < 2 then n else Fib(n - 1) + Fib(n - 2)
  }

  lemma {:induction false} FibGrows(a: nat, b: nat)
    requires a <= b
    ensures Fib(a) <= Fib(b)
  {
    if a < b {
      FibGrows(a, b - 1);
    }
  }

  lemma {:induction false} CountAtLeast(t: Tree)
    requires Avl(t)
    ensures Count(t) + 1 >= Fib(H(t) + 2)
  {
    hide *;
    if t.Node? {
      NearRules(t, L);
      CountAtLeast(t.left);
      CountAtLeast(t.right);
      CountStep(H(t.left), H(t.right), Count(t.left), Count(t.right));
    } else {
      CountNone();
    }
  }

  lemma CountNone()
    ensures H(Leaf) == 0 && Fib(2) == 1
  {
  }

  lemma CountStep(hl: nat, hr: nat, l: nat, r: nat)
    requires hl - hr <= 1 && hr - hl <= 1 && l + 1 >= Fib(hl + 2) && r + 1 >= Fib(hr + 2)
    ensures l + 1 + r + 1 >= Fib(1 + Max(hl, hr) + 2)
  {
    hide Fib;
    FibStep(Max(hl, hr) + 1);
    FibGrows(hl + 1, hr + 2);
    FibGrows(hr + 1, hl + 2);
  }

  lemma FibStep(n: nat)
    ensures Fib(n + 2) == Fib(n + 1) + Fib(n)
  {
  }

  lemma FibEight(n: nat)
    ensures Fib(n + 8) == 21 * Fib(n + 1) + 13 * Fib(n) && Fib(n + 9) == 34 * Fib(n + 1) + 21 * Fib(n)
  {
    hide Fib;
    FibStep(n);
    FibStep(n + 1);
    FibStep(n + 2);
    FibStep(n + 3);
    FibStep(n + 4);
    FibStep(n + 5);
    FibStep(n + 6);
    FibStep(n + 7);
  }

  lemma FibValue()
    ensures Fib(48) == 4807526976
  {
    assert Fib(0) == 0 && Fib(1) == 1;
    hide Fib;
    FibEight(0);
    FibEight(8);
    FibEight(16);
    FibEight(24);
    FibEight(32);
    FibEight(40);
  }

  /** `KAVL_MAX_DEPTH`. */
  const MAX_DEPTH := 64

  /** A tree whose size fits 32 bits is at most 45 high: no path can run past the arrays. */
  lemma HeightFits(t: Tree)
    requires Avl(t) && Count(t) < 0x1_0000_0000
    ensures H(t) <= 45 < MAX_DEPTH
  {
    CountAtLeast(t);
    hide *;
    if H(t) > 45 {
      FibGrows(48, H(t) + 2);
      FibValue();
    }
  }

  lemma {:induction false} PathLength(fs: Path, h: nat)
    ensures |fs| + h <= FH(fs, h)
  {
    if fs != [] {
      PathLength(fs[1..], h);
    }
  }
}
