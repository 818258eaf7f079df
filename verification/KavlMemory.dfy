/** What the writes of the algorithms do to the memory of a tree. */
module KavlMemory {
  import opened KavlShape
  import opened KavlRules
  import opened KavlInsert
  import opened KavlErase
  import opened Sides

  /** The same nodes, and only the cells in `s` may differ. */
  ghost predicate Only(m: Mem, m': Mem, s: set<Elem>) {
    m'.Keys == m.Keys && Changes(m, m', s)
  }

  lemma IsNear(m: Mem, t: Tree, s: Side)
    requires t.Node?
    ensures Is(m, t) <==> t.n in m && m[t.n] == t.Image() && Is(m, t.Near(s)) && Is(m, t.Near(s.Flip()))
  {
  }

  lemma IsRoot(m: Mem, t: Tree)
    requires Is(m, t)
    ensures t.Root() != null ==> t.Root() in m && m[t.Root()].size == t.Z()
    ensures t.Root() == null ==> t.Z() == 0
  {
  }

  /** The nodes and cells that kavl_rotate1 looks at. */
  lemma Rot1Reads(m: Mem, t: Tree, dir: Side)
    requires t.Node? && t.Near(dir.Flip()).Node? && Is(m, t) && Distinct(t)
    ensures var (q, opp) := (t.Near(dir.Flip()), dir.Flip());
      && t.n in m && q.n in m && t.n != q.n && m[t.n] == t.Image() && m[q.n] == q.Image() && m[t.n].Kid(opp) == q.n
      && m[q.n].Kid(dir) == q.Near(dir).Root() && m[t.n].size == t.z && m[q.n].size == q.z
      && (q.Near(dir).Root() != null ==> q.Near(dir).Root() in m && m[q.Near(dir).Root()].size == q.Near(dir).Z())
  {
    hide Is, Distinct, Nodes;
    IsNear(m, t, dir);
    IsNear(m, t.Near(dir.Flip()), dir);
    IsRoot(m, t.Near(dir.Flip()).Near(dir));
    DistinctNear(t, dir);
    DistinctNear(t.Near(dir.Flip()), dir);
  }

  /** One rotation, with the balances `qb` and `pb` stored. */
  lemma Rot1Is(m: Mem, m': Mem, t: Tree, dir: Side, qb: int, pb: int)
    requires t.Node? && t.Near(dir.Flip()).Node? && Is(m, t) && Distinct(t)
    requires var (q, v) := (t.Near(dir.Flip()), Rot1(t, dir, qb, pb));
      Only(m, m', {t.n, q.n}) && t.n in m && q.n in m && m'[q.n] == v.Image() && m'[t.n] == v.Near(dir).Image()
    ensures Is(m', Rot1(t, dir, qb, pb))
  {
    var (q, v) := (t.Near(dir.Flip()), Rot1(t, dir, qb, pb));
    Rot1Parts(t, dir, qb, pb);
    hide Is, Distinct, Nodes, Rot1, Make;
    IsNear(m, t, dir);
    IsNear(m, q, dir);
    DistinctNear(t, dir);
    DistinctNear(q, dir);
    IsFrame(m, m', t.Near(dir), {t.n, q.n});
    IsFrame(m, m', q.Near(dir), {t.n, q.n});
    IsFrame(m, m', q.Near(dir.Flip()), {t.n, q.n});
    IsNear(m', v.Near(dir), dir);
    IsNear(m', v, dir);
  }

  lemma Rot1Parts(t: Tree, dir: Side, qb: int, pb: int)
    requires t.Node? && t.Near(dir.Flip()).Node?
    ensures var (q, v) := (t.Near(dir.Flip()), Rot1(t, dir, qb, pb));
      && v.Node? && v.n == q.n && v.Near(dir).Node? && v.Near(dir).n == t.n
      && v.Near(dir).Near(dir) == t.Near(dir) && v.Near(dir).Near(dir.Flip()) == q.Near(dir) && v.Near(dir.Flip()) == q.Near(dir.Flip())
      && v.Image() == q.Image().SetKid(dir, t.n).(size := t.z, balance := qb)
      && v.Near(dir).Image() == t.Image().SetKid(dir.Flip(), q.Near(dir).Root()).(size := t.z - (q.z - q.Near(dir).Z()), balance := pb)
  {
  }

  lemma Rot2Reads(m: Mem, t: Tree, dir: Side)
    requires t.Node? && t.Near(dir.Flip()).Node? && t.Near(dir.Flip()).Near(dir).Node? && Is(m, t) && Distinct(t)
    ensures var q := t.Near(dir.Flip());
      var r := q.Near(dir);
      && t.n in m && q.n in m && r.n in m && t.n != q.n && t.n != r.n && q.n != r.n
      && m[t.n] == t.Image() && m[q.n] == q.Image() && m[r.n] == r.Image()
      && (r.Near(dir).Root() != null ==> r.Near(dir).Root() in m && m[r.Near(dir).Root()].size == r.Near(dir).Z())
  {
    hide Is, Distinct, Nodes;
    var q := t.Near(dir.Flip());
    IsNear(m, t, dir);
    IsNear(m, q, dir);
    IsNear(m, q.Near(dir), dir);
    IsRoot(m, q.Near(dir).Near(dir));
    DistinctNear(t, dir);
    DistinctNear(q, dir);
    DistinctNear(q.Near(dir), dir);
  }

  lemma Rot2Parts(t: Tree, dir: Side)
    requires t.Node? && t.Near(dir.Flip()).Node? && t.Near(dir.Flip()).Near(dir).Node?
    ensures var (q, opp, v) := (t.Near(dir.Flip()), dir.Flip(), Rot2(t, dir));
      var r := q.Near(dir);
      var (qb, pb) := Rot2Balances(r.b, dir);
      && v.Node? && v.n == r.n && v.Near(dir).Node? && v.Near(dir).n == t.n && v.Near(opp).Node? && v.Near(opp).n == q.n
      && v.Near(dir).Near(dir) == t.Near(dir) && v.Near(dir).Near(opp) == r.Near(dir)
      && v.Near(opp).Near(dir) == r.Near(opp) && v.Near(opp).Near(opp) == q.Near(opp)
      && v.Image() == r.Image().SetKid(dir, t.n).SetKid(opp, q.n).(size := t.z, balance := 0)
      && v.Near(dir).Image() == t.Image().SetKid(opp, r.Near(dir).Root()).(size := t.z - (q.z - r.Near(dir).Z()), balance := pb)
      && v.Near(opp).Image() == q.Image().SetKid(dir, r.Near(opp).Root()).(size := q.z - (r.Near(dir).Z() + 1), balance := qb)
  {
  }

  lemma Rot2Is(m: Mem, m': Mem, t: Tree, dir: Side)
    requires t.Node? && t.Near(dir.Flip()).Node? && t.Near(dir.Flip()).Near(dir).Node? && Is(m, t) && Distinct(t)
    requires var (q, v) := (t.Near(dir.Flip()), Rot2(t, dir));
      var r := q.Near(dir);
      Only(m, m', {t.n, q.n, r.n}) && {t.n, q.n, r.n} <= m.Keys
      && m'[r.n] == v.Image() && m'[t.n] == v.Near(dir).Image() && m'[q.n] == v.Near(dir.Flip()).Image()
    ensures Is(m', Rot2(t, dir))
  {
    var (q, v) := (t.Near(dir.Flip()), Rot2(t, dir));
    var r := q.Near(dir);
    Rot2Parts(t, dir);
    hide Is, Distinct, Nodes, Rot2, Make;
    IsNear(m, t, dir);
    IsNear(m, q, dir);
    IsNear(m, r, dir);
    DistinctNear(t, dir);
    DistinctNear(q, dir);
    DistinctNear(r, dir);
    var s := {t.n, q.n, r.n};
    IsFrame(m, m', t.Near(dir), s);
    IsFrame(m, m', r.Near(dir), s);
    IsFrame(m, m', r.Near(dir.Flip()), s);
    IsFrame(m, m', q.Near(dir.Flip()), s);
    IsNear(m', v.Near(dir), dir);
    IsNear(m', v.Near(dir.Flip()), dir);
    IsNear(m', v, dir);
  }

  ghost function SizeIn(m: Mem, p: Elem?): int
    requires p != null ==> p in m
  {
    if p == null then 0 else m[p].size
  }

  ghost predicate Rot1Ready(m: Mem, p: Elem, q: Elem, dir: Side) {
    p in m && q in m && p != q && (m[q].Kid(dir) != null ==> m[q].Kid(dir) in m)
  }

  ghost function Rot1Mem(m: Mem, p: Elem, q: Elem, dir: Side): Mem
    requires Rot1Ready(m, p, q, dir)
  {
    var b := m[q].Kid(dir);
    m[p := m[p].SetKid(dir.Flip(), b).(size := m[p].size - (m[q].size - SizeIn(m, b)))]
     [q := m[q].SetKid(dir, p).(size := m[p].size)]
  }

  /** The sizes that kavl_rotate2 stores; `z` is the size of the child of r towards `dir`. */
  ghost function Rot2Sizes(m: Mem, p: Elem, q: Elem, r: Elem, z: int): (m': Mem)
    requires p in m && q in m && r in m
    ensures m'.Keys == m.Keys
  {
    var m1 := m[r := m[r].(size := m[p].size)];
    var m2 := m1[p := m1[p].(size := m[p].size - (m[q].size - z))];
    m2[q := m2[q].(size := m[q].size - (z + 1))]
  }

  /** The links that kavl_rotate2 makes. */
  ghost function Rot2Kids(m: Mem, p: Elem, q: Elem, r: Elem, dir: Side): (m': Mem)
    requires p in m && q in m && r in m
    ensures m'.Keys == m.Keys
  {
    var m1 := m[p := m[p].SetKid(dir.Flip(), m[r].Kid(dir))];
    var m2 := m1[r := m1[r].SetKid(dir, p)];
    var m3 := m2[q := m2[q].SetKid(dir, m[r].Kid(dir.Flip()))];
    m3[r := m3[r].SetKid(dir.Flip(), q)]
  }

  lemma Rot1Cells(m: Mem, t: Tree, dir: Side)
    requires t.Node? && t.Near(dir.Flip()).Node? && Is(m, t) && Distinct(t)
    ensures var (p, q, v) := (t.n, t.Near(dir.Flip()).n, Rot1(t, dir, t.Near(dir.Flip()).b, t.b));
      && Rot1Ready(m, p, q, dir) == true && v.Node? && v.Near(dir).Node?
      && var m' := Rot1Mem(m, p, q, dir); Only(m, m', {p, q}) && m'[q] == v.Image() && m'[p] == v.Near(dir).Image()
  {
    Rot1Reads(m, t, dir);
    Rot1Parts(t, dir, t.Near(dir.Flip()).b, t.b);
    IsRoot(m, t.Near(dir.Flip()).Near(dir));
    hide Is, Distinct, Rot1;
  }

  lemma Rot1Apart(m: Mem, p: Elem, q: Elem, dir: Side)
    requires Rot1Ready(m, p, q, dir) == true
    ensures p in m && q in m && p != q && (m[q].Kid(dir) != null ==> m[q].Kid(dir) in m) && (dir == L || dir == R)
  {
  }

  lemma Rot1Steps(m: Mem, p: Elem, q: Elem, dir: Side, z: int) returns (m1: Mem, m2: Mem, m3: Mem)
    requires Rot1Ready(m, p, q, dir) == true && z == if m[q].Kid(dir) == null then 0 else m[m[q].Kid(dir)].size
    ensures m1 == m[p := m[p].(size := m[p].size - (m[q].size - z))] && m1.Keys == m.Keys
    ensures m2 == m1[q := m1[q].(size := m[p].size)] && m2.Keys == m.Keys
    ensures m3 == m2[p := m2[p].SetKid(dir.Flip(), m[q].Kid(dir))] && m3.Keys == m.Keys
    ensures m3[q := m3[q].SetKid(dir, p)] == Rot1Mem(m, p, q, dir)
  {
    m1 := m[p := m[p].(size := m[p].size - (m[q].size - z))];
    m2 := m1[q := m1[q].(size := m[p].size)];
    m3 := m2[p := m2[p].SetKid(dir.Flip(), m[q].Kid(dir))];
  }

  /** The balances that kavl_rotate2 stores. */
  ghost function Rot2Balanced(m: Mem, p: Elem, q: Elem, r: Elem, qb: int, pb: int): (m': Mem)
    requires p in m && q in m && r in m
    ensures m'.Keys == m.Keys
  {
    var m1 := m[q := m[q].(balance := qb)];
    var m2 := m1[p := m1[p].(balance := pb)];
    m2[r := m2[r].(balance := 0)]
  }

  /** All the writes of kavl_rotate2 together make the doubly rotated subtree. */
  lemma Rot2Done(m: Mem, t: Tree, dir: Side)
    requires t.Node? && t.Near(dir.Flip()).Node? && t.Near(dir.Flip()).Near(dir).Node? && Is(m, t) && Distinct(t)
    ensures var q := t.Near(dir.Flip());
      var (r, bs) := (q.Near(dir), Rot2Balances(q.Near(dir).b, dir));
      && t.n in m && q.n in m && r.n in m
      && var m' := Rot2Balanced(Rot2Kids(Rot2Sizes(m, t.n, q.n, r.n, r.Near(dir).Z()), t.n, q.n, r.n, dir), t.n, q.n, r.n, bs.0, bs.1);
         Only(m, m', {t.n, q.n, r.n}) && Is(m', Rot2(t, dir))
  {
    hide Is, Distinct, Rot2, Rot2Sizes, Rot2Kids, Rot2Balanced, Only;
    Rot2Reads(m, t, dir);
    var q := t.Near(dir.Flip());
    var r := q.Near(dir);
    var bs := Rot2Balances(r.b, dir);
    var m1 := Rot2Sizes(m, t.n, q.n, r.n, r.Near(dir).Z());
    var m2 := Rot2Kids(m1, t.n, q.n, r.n, dir);
    SizesCells(m, t.n, q.n, r.n, r.Near(dir).Z());
    KidsCells(m1, t.n, q.n, r.n, dir);
    BalancedCells(m2, t.n, q.n, r.n, bs.0, bs.1);
    var m3 := Rot2Balanced(m2, t.n, q.n, r.n, bs.0, bs.1);
    OnlyTwice(m, m1, m2, {t.n, q.n, r.n});
    OnlyTwice(m, m2, m3, {t.n, q.n, r.n});
    Rot2Parts(t, dir);
    Rot2Is(m, m3, t, dir);
  }

  lemma SizesCells(m: Mem, p: Elem, q: Elem, r: Elem, z: int)
    requires p in m && q in m && r in m && p != q && p != r && q != r
    ensures var m' := Rot2Sizes(m, p, q, r, z);
      && m'[p] == m[p].(size := m[p].size - (m[q].size - z)) && m'[q] == m[q].(size := m[q].size - (z + 1))
      && m'[r] == m[r].(size := m[p].size) && Only(m, m', {p, q, r})
  {
  }

  lemma KidsCells(m: Mem, p: Elem, q: Elem, r: Elem, dir: Side)
    requires p in m && q in m && r in m && p != q && p != r && q != r
    ensures var m' := Rot2Kids(m, p, q, r, dir);
      && m'[p] == m[p].SetKid(dir.Flip(), m[r].Kid(dir)) && m'[q] == m[q].SetKid(dir, m[r].Kid(dir.Flip()))
      && m'[r] == m[r].SetKid(dir, p).SetKid(dir.Flip(), q) && Only(m, m', {p, q, r})
  {
  }

  lemma BalancedCells(m: Mem, p: Elem, q: Elem, r: Elem, qb: int, pb: int)
    requires p in m && q in m && r in m && p != q && p != r && q != r
    ensures var m' := Rot2Balanced(m, p, q, r, qb, pb);
      && m'[p] == m[p].(balance := pb) && m'[q] == m[q].(balance := qb) && m'[r] == m[r].(balance := 0) && Only(m, m', {p, q, r})
  {
  }

  lemma OnlyTwice(m: Mem, m': Mem, m'': Mem, s: set<Elem>)
    requires Only(m, m', s) && Only(m', m'', s)
    ensures Only(m, m'', s)
  {
  }

  /** What kavl_rotate2 reads, before and between its writes. */
  lemma Rot2Fields(m: Mem, t: Tree, dir: Side)
    requires t.Node? && t.Near(dir.Flip()).Node? && t.Near(dir.Flip()).Near(dir).Node? && Is(m, t) && Distinct(t)
    ensures var (p, q, r) := (t.n, t.Near(dir.Flip()).n, t.Near(dir.Flip()).Near(dir).n);
      && p in m && q in m && r in m && p != q && p != r && q != r && m[p].Kid(dir.Flip()) == q && m[q].Kid(dir) == r
      && var (b, z) := (m[r].Kid(dir), t.Near(dir.Flip()).Near(dir).Near(dir).Z());
         && (b != null ==> b in m) && z == (if b == null then 0 else m[b].size)
         && Rot2Kids(Rot2Sizes(m, p, q, r, z), p, q, r, dir)[r].balance == t.Near(dir.Flip()).Near(dir).b
  {
    hide Is, Distinct, Rot2, Rot2Sizes, Rot2Kids, Only;
    Rot2Reads(m, t, dir);
    var q := t.Near(dir.Flip());
    var r := q.Near(dir);
    SizesCells(m, t.n, q.n, r.n, r.Near(dir).Z());
    KidsCells(Rot2Sizes(m, t.n, q.n, r.n, r.Near(dir).Z()), t.n, q.n, r.n, dir);
    IsRoot2(m, t, dir);
  }

  lemma IsRoot2(m: Mem, t: Tree, dir: Side)
    requires t.Node? && t.Near(dir.Flip()).Node? && t.Near(dir.Flip()).Near(dir).Node? && Is(m, t)
    ensures t.Near(dir.Flip()).Near(dir).Near(dir).Root() == null ==> t.Near(dir.Flip()).Near(dir).Near(dir).Z() == 0
  {
  }

  /** One rotation, and then the two balances. */
  lemma Rot1Done(m: Mem, m1: Mem, t: Tree, dir: Side, qb: int, pb: int)
    requires t.Node? && t.Near(dir.Flip()).Node? && Is(m, t) && Distinct(t)
    requires var (p, q, v) := (t.n, t.Near(dir.Flip()).n, Rot1(t, dir, t.Near(dir.Flip()).b, t.b));
      Only(m, m1, {p, q}) && p in m1 && q in m1 && p != q && v.Node? && v.Near(dir).Node? && m1[q] == v.Image() && m1[p] == v.Near(dir).Image()
    ensures var (p, q) := (t.n, t.Near(dir.Flip()).n);
      var m2 := m1[q := m1[q].(balance := qb)];
      var m' := m2[p := m2[p].(balance := pb)];
      && m2.Keys == m1.Keys && Only(m, m', {p, q}) && Is(m', Rot1(t, dir, qb, pb))
  {
    var q := t.Near(dir.Flip());
    Rot1Parts(t, dir, q.b, t.b);
    Rot1Parts(t, dir, qb, pb);
    var m2 := m1[q.n := m1[q.n].(balance := qb)];
    var m' := m2[t.n := m2[t.n].(balance := pb)];
    hide Is, Distinct, Rot1;
    Rot1Is(m, m', t, dir, qb, pb);
  }

  lemma TurnNodes(t: Tree, dir: Side)
    requires t.Node?
    ensures {t.n} <= Nodes(t)
    ensures t.Near(dir).Node? ==> t.Near(dir).n in Nodes(t) && forall s :: t.Near(dir).Near(s).Node? ==> t.Near(dir).Near(s).n in Nodes(t)
  {
    hide Nodes;
    DistinctNear(t, dir);
    if t.Near(dir).Node? {
      DistinctNear(t.Near(dir), L);
      if t.Near(dir).left.Node? {
        DistinctNear(t.Near(dir).left, L);
      }
      if t.Near(dir).right.Node? {
        DistinctNear(t.Near(dir).right, L);
      }
    }
  }

  lemma OnlyMore(m: Mem, m': Mem, s: set<Elem>, s': set<Elem>)
    requires Only(m, m', s) && s <= s'
    ensures Only(m, m', s')
  {
  }

  /** What the rebalancing of an insertion is, and that it touches the subtree only. */
  lemma TurnIs(u: Tree, dir: Side)
    requires Tipped(u, dir) && u.Near(dir.Flip()).Node? && u.Near(dir.Flip()).b != 0
    ensures u.Near(dir.Flip()).b == Away(dir) ==> Turn(u, dir) == Rot1(u, dir, 0, 0)
    ensures u.Near(dir.Flip()).b != Away(dir) ==> u.Near(dir.Flip()).Near(dir).Node? && Turn(u, dir) == Rot2(u, dir)
  {
    TippedNodes(u, dir);
    TippedBalance(u, dir);
    hide Rot1, Rot2;
  }

  lemma TippedBalance(u: Tree, dir: Side)
    requires Tipped(u, dir) && u.Near(dir.Flip()).Node? && u.Near(dir.Flip()).b != 0
    ensures u.Near(dir.Flip()).b == Away(dir) || u.Near(dir.Flip()).b == -Away(dir)
  {
  }

  lemma RotRoots(t: Tree, dir: Side, qb: int, pb: int)
    requires t.Node? && t.Near(dir.Flip()).Node?
    ensures Rot1(t, dir, qb, pb).Root() == t.Near(dir.Flip()).n
    ensures t.Near(dir.Flip()).Near(dir).Node? ==> Rot2(t, dir).Root() == t.Near(dir.Flip()).Near(dir).n
  {
  }

  lemma RootReads(m: Mem, t: Tree, dir: Side)
    requires t.Node? && t.Near(dir).Node? && Is(m, t)
    ensures t.n in m && t.Near(dir).n in m && m[t.n].Kid(dir) == t.Near(dir).n && m[t.n].balance == t.b && m[t.Near(dir).n].balance == t.Near(dir).b
  {
    assert t.Near(dir) == t.left || t.Near(dir) == t.right;
  }
}
