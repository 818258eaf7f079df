/** The memory pool: a map on byte strings, kept in an AVL tree. */
module Mpool {
  import opened ByteOrder
  import opened KavlShape
  import opened KavlRules
  import opened KavlSearch
  import opened KavlLink
  import opened KavlUnlink
  import opened KavlTree
  import opened KavlRemoval
  import opened Sequences

  /** The keys of a sequence of elements. */
  ghost function KeysOf(s: seq<Elem>): set<Bytes> {
    set x <- s :: x.data
  }

  /** The map that a sequence of elements stands for. */
  ghost function Table(s: seq<Elem>): map<Bytes, Elem?> {
    map k <- KeysOf(s) :: Holder(s, k)
  }

  lemma {:induction false} HolderFinds(s: seq<Elem>, k: Bytes)
    ensures k in KeysOf(s) <==> Holder(s, k) != null
  {
    if s != [] {
      HolderFinds(s[1..], k);
      assert forall x <- s :: x == s[0] || x in s[1..];
    }
  }

  lemma OneMore(a: seq<Elem>, x: Elem, b: seq<Elem>, k: Bytes)
    requires Ascending(a + [x] + b)
    ensures Holder(a + [x] + b, k) == (if k == x.data then x else Holder(a + b, k)) && Holder(a + b, x.data) == null
    ensures k in KeysOf(a + [x] + b) <==> k in KeysOf(a + b) || k == x.data
    ensures x.data !in KeysOf(a + b)
  {
    AscendingAround(a, x, b);
    HolderNone(a, b, x.data);
    HolderFinds(a + b, x.data);
    HolderFinds(a + b, k);
    HolderFinds(a + [x] + b, k);
    hide Holder, KeysOf, Ascending, Below, Above;
    if k == x.data {
      HolderHere(a, x, b, k);
    } else {
      HolderOther(a, x, b, k);
    }
  }

  /** One element more is one key more in the map, and nothing else. */
  lemma TableMore(a: seq<Elem>, x: Elem, b: seq<Elem>)
    requires Ascending(a + [x] + b)
    ensures Table(a + [x] + b) == Table(a + b)[x.data := x] && Table(a + b) == Table(a + [x] + b) - {x.data}
  {
    hide Holder, KeysOf, Ascending;
    var (s, t) := (a + [x] + b, a + b);
    forall k: Bytes
      ensures Holder(s, k) == (if k == x.data then x else Holder(t, k)) && (k in KeysOf(s) <==> k in KeysOf(t) || k == x.data)
      ensures x.data !in KeysOf(t)
    {
      OneMore(a, x, b, k);
    }
  }

  /** A new element adds its key to the map and changes nothing else. */
  lemma TableWith(s: seq<Elem>, x: Elem)
    requires Rank(s, x.data) <= |s| && Ascending(With(s, x))
    ensures Table(With(s, x)) == Table(s)[x.data := x]
  {
    hide Ascending, Table, Rank;
    var (a, b) := (s[..Rank(s, x.data)], s[Rank(s, x.data)..]);
    assert s == a + b;
    TableMore(a, x, b);
  }

  /** Taking an element out takes its key out of the map and changes nothing else. */
  lemma TableWithout(t: Tree, t': Tree, c: nat, p: Elem)
    requires Removes(t, t', c, p) && Ascending(Inorder(t))
    ensures Table(Inorder(t')) == Table(Inorder(t)) - {p.data}
  {
    hide Ascending, Table, Inorder;
    var s := Inorder(t);
    var (a, b) := (s[..c - 1], s[c..]);
    assert s == a + [p] + b && Inorder(t') == a + b;
    TableMore(a, p, b);
  }

  /** `struct mphdr`: `stat` says that the strings are not copied, which makes no difference to their values. */
  class Mphdr {
    const stat: bool
    const tree: Kavl

    ghost predicate Valid()
      reads this, tree, tree.mem.Keys
    {
      tree.Valid()
    }

    /** What the pool stands for. */
    ghost function Pool(): map<Bytes, Elem?>
      reads this, tree
    {
      Table(Inorder(tree.shape))
    }

    /** mem_pool */
    constructor (cst: bool)
      ensures Valid() && Pool() == map[] && stat == cst && fresh(tree)
    {
      stat := cst;
      tree := new Kavl();
    }

    /** mem_get */
    method Get(str: Bytes) returns (e: Elem?)
      requires Valid()
      ensures e == if str in Pool() then Pool()[str] else null
    {
      var cnt;
      e, cnt := tree.Find(str);
      HolderFinds(Inorder(tree.shape), str);
    }

    /** mem_add: the element that is there, or a new one.  The pool may hold 2^32 - 1 elements. */
    method Add(str: Bytes) returns (v: Elem)
      requires Valid() && |Inorder(tree.shape)| < 0xFFFF_FFFF
      modifies tree, tree.mem.Keys
      ensures Valid() && v.data == str
      ensures if str in old(Pool()) then v == old(Pool())[str] && Pool() == old(Pool()) else fresh(v) && Pool() == old(Pool())[str := v]
      ensures fresh(tree.mem.Keys - old(tree.mem.Keys))
    {
      var e := new Elem(str);
      ghost var s := Inorder(tree.shape);
      CountInorder(tree.shape);
      HolderFinds(s, str);
      var cnt;
      v, cnt := tree.Insert(e);
      if Holder(s, str) != null {
        HolderKey(s, str);
      } else {
        TableWith(s, e);
      }
    }

    /** mem_delete */
    method Delete(str: Bytes)
      requires Valid()
      modifies tree, tree.mem.Keys
      ensures Valid() && Pool() == old(Pool()) - {str}
    {
      ghost var t := tree.shape;
      HolderFinds(Inorder(t), str);
      var e, cnt := Erase(tree, str);
      if e != null {
        HolderKey(Inorder(t), str);
        TableWithout(t, tree.shape, cnt, e);
      }
    }

    /** mem_destroy: every element is freed once, in the order of the keys. */
    method Destroy() returns (freed: seq<Elem>)
      requires Valid()
      modifies tree, tree.mem.Keys
      ensures Valid() && Pool() == map[] && tree.root == null && freed == old(Inorder(tree.shape))
    {
      freed := [];
      while tree.root != null
        invariant Valid() && tree.mem.Keys <= old(tree.mem.Keys)
        invariant freed + Inorder(tree.shape) == old(Inorder(tree.shape))
        decreases |Inorder(tree.shape)|
      {
        ghost var s := Inorder(tree.shape);
        var e := EraseFirst(tree);
        Assoc(freed, [e], Inorder(tree.shape));
        freed := freed + [e];
      }
    }
  }
}
