/** Small facts that the methods of the tree call on. */
module KavlPaths {
  import opened ByteOrder
  import opened KavlShape
  import opened KavlRules
  import opened KavlInsert
  import opened KavlErase
  import opened KavlSearch
  import opened KavlMemory
  import opened Sides

  lemma LeafSound()
    ensures Sound(Leaf) && Is(map[], Leaf) && Nodes(Leaf) == {} && Leaf.Root() == null
  {
  }

  lemma StartPlace(shape: Tree, x: Bytes)
    ensures Place(shape, [], shape, x) && Before([]) == []
  {
  }

  lemma RootNull(t: Tree)
    ensures t.Root() == null <==> t == Leaf
  {
  }

  /** What the fields of the root of `t` are. */
  lemma NodeReads(m: Mem, t: Tree)
    requires Is(m, t) == true && t.Root() != null
    ensures t.Node? && t.n == t.Root() && t.n in m && Is(m, t.left) && Is(m, t.right)
    ensures m[t.n].left == t.left.Root() && m[t.n].right == t.right.Root() && m[t.n].balance == t.b && m[t.n].size == t.z
    ensures t.left.Root() != null ==> t.left.Root() in m && m[t.left.Root()].size == t.left.Z()
    ensures t.left.Root() == null ==> t.left.Z() == 0
  {
  }

  // ---------------------------------------------------------------- the arrays that remember the path

  /** `path` holds the nodes of the frames. */
  ghost predicate OnPath(path: seq<Elem?>, fs: Path) {
    |fs| <= |path| && forall i :: 0 <= i < |fs| ==> path[i] == fs[i].n
  }

  /** `dirs` holds the sides of the frames from `k` on. */
  ghost predicate Turns(dirs: seq<Side>, fs: Path, k: nat, top: nat) {
    k + top == |fs| && top <= |dirs| && forall j :: 0 <= j < top ==> dirs[j] == fs[k + j].side
  }

  lemma OnPathStep(path: seq<Elem?>, fs: Path, f: Frame)
    requires OnPath(path, fs) == true && |fs| < |path|
    ensures OnPath(path[|fs| := f.n], fs + [f]) == true
  {
  }

  lemma TurnsStep(dirs: seq<Side>, fs: Path, k: nat, top: nat, f: Frame)
    requires Turns(dirs, fs, k, top) == true && top < |dirs|
    ensures Turns(dirs[top := f.side], fs + [f], k, top + 1) == true
  {
  }

  lemma TurnsNone(dirs: seq<Side>, fs: Path)
    ensures Turns(dirs, fs, |fs|, 0) == true
  {
  }

  /**
   Where an insertion stands: `q` is above the hole, on its side `which`; `bp` is the deepest node
   met that is out of balance, or the root, and `bq` the node above `bp`.
   */
  ghost predicate Spot(fs: Path, t: Tree, k: nat, bp: Elem?, bq: Elem?, q: Elem?, which: Side) {
    && q == (if fs == [] then null else fs[|fs| - 1].n) && (fs != [] ==> which == fs[|fs| - 1].side)
    && k <= |fs| && bp == Head(fs[k..], t.Root()) && bq == (if k == 0 then null else fs[k - 1].n)
    && (forall j :: k < j < |fs| ==> fs[j].b == 0) && (k < |fs| && fs[k].b == 0 ==> k == 0) && (k == |fs| ==> k == 0)
  }

  lemma SpotStart(shape: Tree, which: Side)
    ensures Spot([], shape, 0, shape.Root(), null, null, which) == true && OnPath([], []) == true
  {
  }

  lemma SpotStep(fs: Path, t: Tree, k: nat, bp: Elem?, bq: Elem?, q: Elem?, which: Side, s: Side)
    requires Spot(fs, t, k, bp, bq, q, which) == true && t.Node?
    ensures t.b != 0 ==> Spot(fs + [Down(t, s)], t.Near(s), |fs|, t.n, q, t.n, s) == true
    ensures t.b == 0 ==> Spot(fs + [Down(t, s)], t.Near(s), k, bp, bq, t.n, s) == true
  {
    var gs := fs + [Down(t, s)];
    assert gs[|fs|..] == [Down(t, s)];
    assert gs[k..] == fs[k..] + [Down(t, s)];
  }

  /** A path never runs past the arrays. */
  lemma RoomBelow(shape: Tree, fs: Path, t: Tree, k: Bytes)
    requires Sound(shape) == true && Place(shape, fs, t, k) == true && t.Node?
    ensures |fs| < 45 < MAX_DEPTH
  {
    hide Sound, Place;
    PlaceInorder(shape, fs, t, k);
  }

  lemma OnPathNone(path: seq<Elem?>)
    ensures OnPath(path, []) == true
  {
  }

  lemma CellKid(c: Cell, s: Side)
    ensures c.Kid(s) == if s == L then c.left else c.right
  {
  }

  lemma NearIs(t: Tree, s: Side)
    requires t.Node?
    ensures t.Near(s) == (if s == L then t.left else t.right) && Down(t, s).n == t.n && Down(t, s).side == s
  {
  }

  lemma AwayIs(s: Side)
    ensures Away(s) == if s == L then 1 else -1
  {
  }

  // ---------------------------------------------------------------- writing along the path

  lemma CountedNone(fs: Path, lo: nat, d: int)
    ensures Counted(fs, lo, lo, d) == fs
  {
  }

  /** One more node of the path is counted. */
  lemma CountedStep(m: Mem, fs: Path, hole: Elem?, lo: nat, i: nat, d: int)
    requires FIs(m, Counted(fs, lo, i, d), hole) && FDistinct(fs) && lo <= i < |fs|
    ensures fs[i].n in m && fs[i].n in FNodes(fs) && m[fs[i].n].size == fs[i].z
    ensures FIs(m[fs[i].n := m[fs[i].n].(size := fs[i].z + d)], Counted(fs, lo, i + 1, d), hole)
  {
    hide FIs, FDistinct, FNodes;
    var cs := Counted(fs, lo, i, d);
    AlikeRules(fs, cs, 0, 0);
    FrameAt(m, cs, i, hole);
    DistinctAt(cs, i);
    var f := cs[i];
    MarkAt(m, m[f.n := m[f.n].(size := f.z + d)], cs, i, hole, f.b, f.z + d);
    assert cs[i := f.Mark(f.b, f.z + d)] == Counted(fs, lo, i + 1, d);
  }

  lemma TiltedNone(fs: Path, k: nat)
    ensures Tilted(fs, k, k) == fs
  {
  }

  /** One more node of the path is tilted; the next one, or what is in the hole, is below it. */
  lemma TiltedStep(m: Mem, fs: Path, hole: Elem?, k: nat, i: nat)
    requires FIs(m, Tilted(fs, k, i), hole) && FDistinct(fs) && k <= i < |fs|
    ensures fs[i].n in m && fs[i].n in FNodes(fs) && m[fs[i].n].balance == fs[i].b
    ensures m[fs[i].n].(balance := fs[i].b - Away(fs[i].side)).Kid(fs[i].side) == if i + 1 < |fs| then fs[i + 1].n else hole
    ensures FIs(m[fs[i].n := m[fs[i].n].(balance := fs[i].b - Away(fs[i].side))], Tilted(fs, k, i + 1), hole)
  {
    hide FIs, FDistinct, FNodes;
    var ts := Tilted(fs, k, i);
    AlikeRules(fs, ts, 0, 0);
    FrameAt(m, ts, i, hole);
    DistinctAt(ts, i);
    var f := ts[i];
    var b := f.b - Away(f.side);
    MarkAt(m, m[f.n := m[f.n].(balance := b)], ts, i, hole, b, f.z);
    assert ts[i := f.Mark(b, f.z)] == Tilted(fs, k, i + 1);
  }

  lemma OnPathAt(path: seq<Elem?>, fs: Path, i: nat)
    requires OnPath(path, fs) == true && i < |fs|
    ensures i < |path| && path[i] == fs[i].n
  {
  }

  lemma TurnsAt(dirs: seq<Side>, fs: Path, k: nat, top: nat, j: nat)
    requires Turns(dirs, fs, k, top) == true && j < top
    ensures k + top == |fs| && j < |dirs| && dirs[j] == fs[k + j].side
  {
  }

  /** What a path goes on with at `i`. */
  ghost function Next(fs: Path, i: nat, hole: Elem?): Elem? {
    if i < |fs| then fs[i].n else hole
  }

  lemma NextIs(fs: Path, i: nat, hole: Elem?)
    ensures Next(fs, i, hole) == if i < |fs| then fs[i].n else hole
  {
  }

  lemma TurnsNext(dirs: seq<Side>, fs: Path, k: nat, n: nat, j: nat, hole: Elem?)
    requires Turns(dirs, fs, k, n) == true && k + j <= |fs| && Next(fs, k + j, hole) != hole
    ensures k + j < |fs| && j < |dirs| && dirs[j] == fs[k + j].side && Next(fs, k + j, hole) != null
  {
  }

  lemma TurnsLength(dirs: seq<Side>, fs: Path, k: nat, top: nat)
    requires Turns(dirs, fs, k, top) == true
    ensures k + top == |fs| && top <= |dirs|
  {
  }

  /** The node at a place on the path is not in the hole. */
  lemma NextLast(fs: Path, i: nat, x: Elem)
    requires i <= |fs| && x !in FNodes(fs) && FDistinct(fs) && Next(fs, i, x) == x
    ensures i == |fs|
  {
    if i < |fs| {
      DistinctAt(fs, i);
    }
  }

  lemma OnlyNone(m: Mem, s: set<Elem>)
    ensures Only(m, m, s) == true
  {
  }

  lemma OnlyStep(m0: Mem, m: Mem, n: Elem, c: Cell, s: set<Elem>)
    requires Only(m0, m, s) == true && n in s && n in m
    ensures Only(m0, m[n := c], s) == true && m[n := c].Keys == m0.Keys == m.Keys
  {
  }

  lemma RootIs(t: Tree)
    requires t.Node?
    ensures t.Root() == t.n
  {
  }

  lemma {:induction false} RankBound(s: seq<Elem>, k: Bytes)
    ensures Rank(s, k) <= |s|
  {
    if s != [] {
      RankBound(s[1..], k);
    }
  }
}
