/** Descents by key, and the map and the ranks that a sequence of elements stands for. */
module KavlSearch {
  import opened ByteOrder
  import opened KavlShape
  import opened KavlRules
  import opened Sequences
  import opened Sides

  /** Every key is smaller than `k`. */
  ghost predicate Below(s: seq<Elem>, k: Bytes) {
    forall x <- s :: LengthFirst(x.data, k) < 0
  }

  /** Every key is greater than `k`. */
  ghost predicate Above(s: seq<Elem>, k: Bytes) {
    forall x <- s :: LengthFirst(k, x.data) < 0
  }

  /** The keys strictly increase under `scmp`. */
  ghost predicate Ascending(s: seq<Elem>) {
    forall i, j :: 0 <= i < j < |s| ==> LengthFirst(s[i].data, s[j].data) < 0
  }

  /** The element with key `k`, or NULL. */
  ghost function Holder(s: seq<Elem>, k: Bytes): Elem? {
    if s == [] then null else if s[0].data == k then s[0] else Holder(s[1..], k)
  }

  /** How many elements are smaller than or equal to `k`. */
  ghost function Rank(s: seq<Elem>, k: Bytes): nat {
    if s == [] then 0 else (if LengthFirst(s[0].data, k) <= 0 then 1 else 0) + Rank(s[1..], k)
  }

  lemma KeyOrder(a: Bytes, b: Bytes)
    ensures (LengthFirst(a, b) == 0 <==> a == b) && (LengthFirst(a, b) < 0 <==> LengthFirst(b, a) > 0)
  {
    CompareOrder(ByLength, a, b);
  }

  lemma AscendingAround(a: seq<Elem>, x: Elem, b: seq<Elem>)
    requires Ascending(a + [x] + b)
    ensures Below(a, x.data) && Above(b, x.data)
  {
    var s := a + [x] + b;
    assert s[|a|] == x;
    forall y | y in a
      ensures LengthFirst(y.data, x.data) < 0
    {
      var i :| 0 <= i < |a| && a[i] == y;
      assert s[i] == y;
    }
    forall y | y in b
      ensures LengthFirst(x.data, y.data) < 0
    {
      var i :| 0 <= i < |b| && b[i] == y;
      assert s[|a| + 1 + i] == y;
    }
  }

  /** A new key goes where everything before is smaller and everything after greater. */
  lemma AscendingWith(a: seq<Elem>, x: Elem, b: seq<Elem>)
    requires Ascending(a + b) && Below(a, x.data) && Above(b, x.data)
    ensures Ascending(a + [x] + b)
  {
    var (s, t) := (a + [x] + b, a + b);
    forall i, j | 0 <= i < j < |s|
      ensures LengthFirst(s[i].data, s[j].data) < 0
    {
      if i != |a| && j != |a| {
        assert s[i] == t[if i < |a| then i else i - 1] && s[j] == t[if j < |a| then j else j - 1];
      } else if i == |a| {
        assert s[j] == b[j - |a| - 1] && s[j] in b;
      } else {
        assert s[i] == a[i] && s[i] in a;
      }
    }
  }

  lemma AscendingWithout(a: seq<Elem>, x: Elem, b: seq<Elem>)
    requires Ascending(a + [x] + b)
    ensures Ascending(a + b)
  {
    var (s, t) := (a + [x] + b, a + b);
    forall i, j | 0 <= i < j < |t|
      ensures LengthFirst(t[i].data, t[j].data) < 0
    {
      assert t[i] == s[if i < |a| then i else i + 1] && t[j] == s[if j < |a| then j else j + 1];
    }
  }

  lemma BelowFurther(s: seq<Elem>, j: Bytes, k: Bytes)
    requires Below(s, j) && LengthFirst(j, k) < 0
    ensures Below(s, k)
  {
    forall x | x in s
      ensures LengthFirst(x.data, k) < 0
    {
      CompareTransitive(ByLength, x.data, j, k);
    }
  }

  lemma AboveFurther(s: seq<Elem>, j: Bytes, k: Bytes)
    requires Above(s, j) && LengthFirst(k, j) < 0
    ensures Above(s, k)
  {
    forall x | x in s
      ensures LengthFirst(k, x.data) < 0
    {
      CompareTransitive(ByLength, k, j, x.data);
    }
  }

  lemma BelowSum(a: seq<Elem>, b: seq<Elem>, k: Bytes)
    ensures Below(a + b, k) <==> Below(a, k) && Below(b, k)
    ensures Above(a + b, k) <==> Above(a, k) && Above(b, k)
  {
    assert forall x <- a :: x in a + b;
    assert forall x <- b :: x in a + b;
  }

  lemma BelowOne(x: Elem, k: Bytes)
    ensures (Below([x], k) <==> LengthFirst(x.data, k) < 0) && (Above([x], k) <==> LengthFirst(k, x.data) < 0)
  {
    assert x in [x];
  }

  /** What a sequence says of `k`, when everything before a point is smaller and everything after it greater. */
  lemma {:induction false} HolderSplit(a: seq<Elem>, b: seq<Elem>, k: Bytes)
    requires Below(a, k)
    ensures Holder(a + b, k) == Holder(b, k) && Rank(a + b, k) == |a| + Rank(b, k)
  {
    if a == [] {
      assert a + b == b;
    } else {
      KeyOrder(a[0].data, k);
      assert (a + b)[1..] == a[1..] + b;
      HolderSplit(a[1..], b, k);
    }
  }

  lemma {:induction false} HolderAbove(b: seq<Elem>, k: Bytes)
    requires Above(b, k)
    ensures Holder(b, k) == null && Rank(b, k) == 0
  {
    if b != [] {
      KeyOrder(k, b[0].data);
      HolderAbove(b[1..], k);
    }
  }

  lemma HolderHere(a: seq<Elem>, x: Elem, b: seq<Elem>, k: Bytes)
    requires Below(a, k) && x.data == k && Above(b, k)
    ensures Holder(a + [x] + b, k) == x && Rank(a + [x] + b, k) == |a| + 1
  {
    Assoc(a, [x], b);
    HolderSplit(a, [x] + b, k);
    assert ([x] + b)[1..] == b;
    KeyOrder(k, k);
    HolderAbove(b, k);
  }

  lemma HolderNone(a: seq<Elem>, b: seq<Elem>, k: Bytes)
    requires Below(a, k) && Above(b, k)
    ensures Holder(a + b, k) == null && Rank(a + b, k) == |a|
  {
    HolderSplit(a, b, k);
    HolderAbove(b, k);
  }

  /** The other keys keep what they had when one element comes in or goes out. */
  lemma {:induction false} HolderOther(a: seq<Elem>, x: Elem, b: seq<Elem>, k: Bytes)
    requires k != x.data
    ensures Holder(a + [x] + b, k) == Holder(a + b, k)
  {
    if a == [] {
      assert a + [x] + b == [x] + b && ([x] + b)[1..] == b && a + b == b;
    } else {
      assert (a + [x] + b)[1..] == a[1..] + [x] + b && (a + b)[1..] == a[1..] + b;
      HolderOther(a[1..], x, b, k);
    }
  }

  // ---------------------------------------------------------------- descents

  /** The rules a tree keeps between calls. */
  ghost predicate Sound(t: Tree) {
    Distinct(t) && Avl(t) && Sized(t) && Ascending(Inorder(t)) && Count(t) < 0x1_0000_0000
  }

  /** The path down from a node on side `s`. */
  ghost function Down(t: Tree, s: Side): Frame
    requires t.Node?
  {
    Frame(s, t.n, t.b, t.z, t.Near(s.Flip()))
  }

  /** `t` hangs in the hole of `fs`, and `k` belongs there. */
  ghost predicate Place(shape: Tree, fs: Path, t: Tree, k: Bytes) {
    Fill(fs, t) == shape && Below(Before(fs), k) && Above(After(fs), k)
  }

  /** What holds of a place in a sound tree. */
  lemma FillParts(shape: Tree, fs: Path, t: Tree)
    requires Sound(shape) && Fill(fs, t) == shape
    ensures Inorder(shape) == Before(fs) + Inorder(t) + After(fs) && Sized(t) && FSized(fs, Count(t))
    ensures Avl(t) && FAvl(fs, H(t)) && Distinct(t) && FDistinct(fs) && FNodes(fs) !! Nodes(t) && Nodes(shape) == FNodes(fs) + Nodes(t)
    ensures |fs| + H(t) <= 45
  {
    hide Inorder, Sized, Avl, Distinct, FAvl, FSized, FDistinct, Fill, Before, After, FNodes, Nodes, FH, H, Count, FCount, Ascending;
    InorderFill(fs, t);
    FillRules(fs, t);
    DistinctFill(fs, t);
    HeightFits(shape);
    PathLength(fs, H(t));
  }

  lemma PlaceInorder(shape: Tree, fs: Path, t: Tree, k: Bytes)
    requires Sound(shape) && Place(shape, fs, t, k)
    ensures Inorder(shape) == Before(fs) + Inorder(t) + After(fs) && Sized(t) && FSized(fs, Count(t))
    ensures Avl(t) && FAvl(fs, H(t)) && Distinct(t) && FDistinct(fs) && FNodes(fs) !! Nodes(t) && Nodes(shape) == FNodes(fs) + Nodes(t)
    ensures |fs| + H(t) <= 45
  {
    hide Sound, Fill, Below, Above;
    FillParts(shape, fs, t);
  }

  lemma DownFill(fs: Path, t: Tree, s: Side)
    requires t.Node?
    ensures Fill(fs + [Down(t, s)], t.Near(s)) == Fill(fs, t)
    ensures Before(fs + [Down(t, s)]) == Before(fs) + (if s == L then [] else Inorder(t.left) + [t.n])
    ensures After(fs + [Down(t, s)]) == (if s == L then [t.n] + Inorder(t.right) else []) + After(fs)
  {
    FillLast(fs, Down(t, s), t.Near(s));
    BeforeOne(Down(t, s));
    BeforeSum(fs, [Down(t, s)]);
  }

  /** One step of a descent: the side that the comparison says, and how many smaller elements are passed. */
  lemma PlaceStep(shape: Tree, fs: Path, t: Tree, k: Bytes)
    requires Sound(shape) && Place(shape, fs, t, k) && t.Node?
    ensures LengthFirst(k, t.n.data) < 0 ==> Place(shape, fs + [Down(t, L)], t.left, k) && |Before(fs + [Down(t, L)])| == |Before(fs)|
    ensures LengthFirst(k, t.n.data) > 0 ==>
      Place(shape, fs + [Down(t, R)], t.right, k) && |Before(fs + [Down(t, R)])| == |Before(fs)| + t.left.Z() + 1
    ensures LengthFirst(k, t.n.data) == 0 ==>
      Holder(Inorder(shape), k) == t.n && Rank(Inorder(shape), k) == |Before(fs)| + t.left.Z() + 1
  {
    hide Sized, Avl, Distinct, FAvl, FSized, FDistinct, Fill, Before, After, FNodes, Nodes, FH, H, Count, FCount;
    hide Ascending, Below, Above, Holder, Rank, LengthFirst;
    PlaceInorder(shape, fs, t, k);
    var (a, l, x, r, b) := (Before(fs), Inorder(t.left), t.n, Inorder(t.right), After(fs));
    Wrap(a, l, [x], r, b);
    AscendingAround(a + l, x, r + b);
    BelowSum(a, l, x.data);
    BelowSum(r, b, x.data);
    NearRules(t, L);
    SizedZ(t.left);
    CountInorder(t.left);
    KeyOrder(k, x.data);
    KeyOrder(x.data, k);
    if LengthFirst(k, x.data) < 0 {
      DownFill(fs, t, L);
      AboveFurther(r, x.data, k);
      BelowOne(x, k);
      BelowSum([x], r, k);
      BelowSum([x] + r, b, k);
      assert a + [] == a;
    } else if LengthFirst(k, x.data) > 0 {
      DownFill(fs, t, R);
      BelowFurther(l, x.data, k);
      BelowOne(x, k);
      BelowSum(l, [x], k);
      BelowSum(a, l + [x], k);
      assert [] + b == b;
    } else {
      HolderHere(a + l, x, r + b, k);
    }
  }

  lemma PlaceNone(shape: Tree, fs: Path, k: Bytes)
    requires Sound(shape) && Place(shape, fs, Leaf, k)
    ensures Holder(Inorder(shape), k) == null && Rank(Inorder(shape), k) == |Before(fs)|
    ensures Inorder(shape) == Before(fs) + After(fs)
  {
    hide Sized, Avl, Distinct, Fill, Before, After, Ascending, Below, Above, Holder, Rank;
    PlaceInorder(shape, fs, Leaf, k);
    assert Before(fs) + [] + After(fs) == Before(fs) + After(fs);
    HolderNone(Before(fs), After(fs), k);
  }
}
