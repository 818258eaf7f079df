/** The mapped-DNS cache: a tree by name, a list by use and an array by index over the same nodes. */
module MappedDns {
  import opened ByteOrder
  import opened RBShape
  import opened RBSplice
  import opened RBTrees
  import opened RBSearch
  import opened HevList
  import opened DnsCache
  import opened Options
  import opened Words
  import opened Sequences
  import opened Sides

  /** A cache entry; `tree` and `list` are the two nodes the C structure embeds. */
  class Entry {
    const name: Bytes
    var idx: nat
    var tree: RBNode?<Entry>
    var list: ListNode?<Entry>

    constructor (name: Bytes)
      ensures this.name == name && tree != null && tree.item == this && list != null && list.item == this
      ensures fresh(tree) && fresh(list)
    {
      this.name := name;
      idx, tree, list := 0, null, null;
      new;
      tree := new RBNode(this);
      list := new ListNode(this);
    }
  }

  /** An entry and the two nodes embedded in it. */
  ghost predicate Made(e: Entry)
    reads e`tree, e`list
  {
    e.tree != null && e.tree.item == e && e.list != null && e.list.item == e
  }

  const byName: Keying<Entry> := Keying((e: Entry) => e.name, ByString)

  ghost function Names(s: seq<Entry>): seq<Bytes> {
    seq(|s|, i requires 0 <= i < |s| => s[i].name)
  }

  ghost function Items(q: seq<ListNode<Entry>>): seq<Entry> {
    seq(|q|, i requires 0 <= i < |q| => q[i].item)
  }

  /** The tree nodes, the list nodes and the array hold the same entries, each at its index. */
  ghost predicate Linked(tree: set<RBNode<Entry>>, list: seq<ListNode<Entry>>, items: seq<Entry>)
    reads items
  {
    && (forall i :: 0 <= i < |items| ==>
         items[i].idx == i
         && items[i].tree != null && items[i].tree in tree && items[i].tree.item == items[i]
         && items[i].list != null && items[i].list in list && items[i].list.item == items[i])
    && (forall n <- tree :: n.item in items && n.item.tree == n)
    && (forall q <- list :: q.item in items && q.item.list == q)
  }

  lemma MovedToEnd(q: seq<ListNode<Entry>>, k: nat)
    requires k < |q| && NoDup(q)
    ensures var q' := DnsCache.Drop(q, k) + [q[k]];
      && (forall x <- q :: x in q') && (forall x <- q' :: x in q) && q[k] !in DnsCache.Drop(q, k)
      && Names(Items(q')) == DnsCache.Drop(Names(Items(q)), k) + [q[k].item.name]
  {
    DropAndAppend(q, k);
    var q' := DnsCache.Drop(q, k) + [q[k]];
    assert forall x <- q :: x in Elems(q);
    assert forall x <- q' :: x in Elems(q');
  }

  lemma LinkedReordered(tree: set<RBNode<Entry>>, q: seq<ListNode<Entry>>, q': seq<ListNode<Entry>>, items: seq<Entry>)
    requires Linked(tree, q, items) == true && (forall x <- q :: x in q') && (forall x <- q' :: x in q)
    ensures Linked(tree, q', items) == true
  {
  }

  /** A new entry under the next index. */
  lemma LinkedAdded(tree: set<RBNode<Entry>>, q: seq<ListNode<Entry>>, items: seq<Entry>, e: Entry)
    requires Linked(tree, q, items) && e !in items
    requires e.idx == |items| && e.tree != null && e.tree.item == e && e.list != null && e.list.item == e
    ensures Linked(tree + {e.tree}, q + [e.list], items + [e])
  {
    var items' := items + [e];
    assert forall i :: 0 <= i < |items| ==> items'[i] == items[i];
    assert forall n <- tree :: n.item in items';
    assert items'[|items|] == e;
    assert (q + [e.list])[|q|] == e.list;
  }

  /** A new entry under the index of the oldest one. */
  lemma LinkedEvicted(tree: set<RBNode<Entry>>, q: seq<ListNode<Entry>>, items: seq<Entry>, e: Entry, v: Entry)
    requires Linked(tree, q, items) && NoDup(q) && q != [] && v == q[0].item && e !in items
    requires v.idx < |items| && items[v.idx] == v && v.tree != null
    requires e.idx == v.idx && e.tree != null && e.tree.item == e && e.list != null && e.list.item == e
    ensures Linked(tree + {e.tree} - {v.tree}, (q + [e.list])[1..], items[v.idx := e])
  {
    var (items', q') := (items[v.idx := e], (q + [e.list])[1..]);
    assert q' == q[1..] + [e.list];
    forall i | 0 <= i < |items'| && i != v.idx
      ensures items'[i].tree in tree && items'[i].tree != v.tree && items'[i].list in q'
    {
      assert items'[i] == items[i] && items[i].idx == i;
      var k :| 0 <= k < |q| && q[k] == items[i].list;
      assert k > 0;
      assert q[1..][k - 1] == items[i].list;
    }
    assert q'[|q'| - 1] == e.list;
    forall n | n in tree && n != v.tree
      ensures n.item in items'
    {
      var j :| 0 <= j < |items| && items[j] == n.item;
      assert items'[j] == n.item;
    }
    forall x | x in q[1..]
      ensures x.item in items' && x.item.list == x
    {
      assert x in q && x != q[0];
      var j :| 0 <= j < |items| && items[j] == x.item;
      assert items'[j] == x.item;
    }
    assert items'[v.idx] == e;
  }

  lemma NamesAdded(q: seq<ListNode<Entry>>, items: seq<Entry>, e: Entry, x: ListNode<Entry>, v: nat)
    requires x.item == e
    ensures Names(Items(q + [x])) == Names(Items(q)) + [e.name] && Names(items + [e]) == Names(items) + [e.name]
    ensures q != [] ==> Names(Items((q + [x])[1..])) == Names(Items(q))[1..] + [e.name]
    ensures v < |items| ==> Names(items[v := e]) == Names(items)[v := e.name]
  {
  }

  class MappedDNS {
    const tree: RBTree<Entry>
    const list: List<Entry>
    const records: array<Entry?>
    const max: nat
    const net: Word
    const mask: Word
    var use: nat
    ghost var items: seq<Entry>

    ghost predicate Valid()
      reads this, tree, list, records, tree.mem.Keys, list.repr, items
    {
      Shaped() && Indexed() && Linked(tree.mem.Keys, list.nodes, items)
    }

    /** Tree and list are well formed, and the tree is in the order of the names. */
    ghost predicate Shaped()
      reads tree, list, tree.mem.Keys, list.repr
    {
      tree.Valid() && list.Valid() && Ordered(Inorder(tree.shape), byName)
    }

    /** The array holds the entries in index order, and nothing after them. */
    ghost predicate Indexed()
      reads this, records
    {
      && use == |items| <= max == records.Length
      && (forall i :: 0 <= i < use ==> records[i] == items[i])
      && (forall i :: use <= i < max ==> records[i] == null)
    }

    constructor (net: Word, mask: Word, max: nat)
      ensures Valid() && Abs() == Cache([], []) && this.net == net && this.mask == mask && this.max == max
      ensures fresh(tree) && fresh(list) && fresh(records)
    {
      this.net, this.mask, this.max := net, mask, max;
      tree := new RBTree<Entry>();
      list := new List<Entry>();
      records := new Entry?[max](_ => null);
      use, items := 0, [];
    }

    /** The names by use and by index. */
    ghost function Abs(): Cache
      reads this, list
    {
      Cache(Names(Items(list.nodes)), Names(items))
    }

    lemma NamesDistinct(a: Entry, b: Entry)
      requires Valid() && a in items && b in items && a != b
      ensures a.name != b.name
    {
      NodesInorder(tree.shape);
      Found(Inorder(tree.shape), a.tree, byName);
      Found(Inorder(tree.shape), b.tree, byName);
    }

    lemma AbsConsistent()
      requires Valid()
      ensures Consistent(Abs(), max)
    {
      var (c, q) := (Abs(), list.nodes);
      forall i, j | 0 <= i < j < |c.slots|
        ensures c.slots[i] != c.slots[j]
      {
        NamesDistinct(items[i], items[j]);
      }
      forall i, j | 0 <= i < j < |c.lru|
        ensures c.lru[i] != c.lru[j]
      {
        assert q[i] in q && q[j] in q && q[i] != q[j];
        NamesDistinct(q[i].item, q[j].item);
      }
      forall x | x in c.lru
        ensures x in c.slots
      {
        var i :| 0 <= i < |c.lru| && c.lru[i] == x;
        assert q[i] in q;
        var j :| 0 <= j < |items| && items[j] == q[i].item;
        assert c.slots[j] == x;
      }
      forall x | x in c.slots
        ensures x in c.lru
      {
        var j :| 0 <= j < |c.slots| && c.slots[j] == x;
        var i :| 0 <= i < |q| && q[i] == items[j].list;
        assert c.lru[i] == x;
      }
      assert Elems(c.lru) == Elems(c.slots);
      DistinctCount(c.lru);
      DistinctCount(c.slots);
    }

    /** Where a name stands in the list. */
    lemma Position(e: Entry) returns (k: nat)
      requires Valid() == true && e in items
      ensures k < |list.nodes| && list.nodes[k] == e.list && list.nodes[k].item == e && e.name in Abs().lru && IndexOf(Abs().lru, e.name) == k
      ensures e.name in Abs().slots && IndexOf(Abs().slots, e.name) == e.idx
    {
      AbsConsistent();
      k :| 0 <= k < |list.nodes| && list.nodes[k] == e.list;
      assert Abs().lru[k] == e.name;
      assert items[e.idx] == e && Abs().slots[e.idx] == e.name by {
        var j :| 0 <= j < |items| && items[j] == e;
      }
    }

    lemma TouchedAbs(e: Entry, k: nat)
      requires k < |list.nodes| && list.nodes[k].item == e && e.name in Abs().lru && IndexOf(Abs().lru, e.name) == k
      ensures DnsCache.Touch(Abs(), e.name) == Cache(DnsCache.Drop(Names(Items(list.nodes)), k) + [e.name], Names(items))
    {
    }

    lemma AbsIs()
      ensures Abs() == Cache(Names(Items(list.nodes)), Names(items))
    {
    }

    method MoveToTail(node: ListNode<Entry>, ghost k: nat)
      requires Shaped() == true && k < |list.nodes| && list.nodes[k] == node
      modifies list, list.repr
      ensures Shaped() == true && list.nodes == DnsCache.Drop(old(list.nodes), k) + [node] && list.repr == old(list.repr)
    {
      hide RBTree.Valid, Ordered;
      MovedToEnd(list.nodes, k);
      list.Del(node, k);
      list.AddTail(node);
    }

    /** The entry moves to the tail of the list. */
    method Touch(e: Entry)
      requires Valid() == true && e in items
      modifies list, list.repr
      ensures Valid() == true && items == old(items) && e.idx == old(e.idx) && list.repr == old(list.repr)
      ensures e.name in old(Abs()).lru && Abs() == DnsCache.Touch(old(Abs()), e.name)
    {
      hide *;
      ghost var k := Position(e);
      ghost var q := list.nodes;
      Opened();
      TouchedAbs(e, k);
      MovedToEnd(q, k);
      MoveToTail(e.list, k);
      LinkedReordered(tree.mem.Keys, q, list.nodes, items);
      Closed();
      AbsIs();
    }

    /** A descent for `name` ends here. */
    ghost predicate Place(name: Bytes, parent: RBNode?<Entry>, side: Side, c: Ctx<Entry>)
      reads tree
    {
      Plug(c, Leaf) == tree.shape && parent == c.Head() && (c.Up? ==> side == c.side) && Between(c, name, byName)
    }

    /** A new entry in the tree and at the tail of the list; the array does not know it yet. */
    method Admit(name: Bytes, parent: RBNode?<Entry>, side: Side, ghost c: Ctx<Entry>) returns (e: Entry)
      requires Shaped() == true
      requires Place(name, parent, side, c) == true
      modifies tree, tree.mem.Keys, list, list.repr
      ensures e.name == name && fresh(e) && Made(e) == true && fresh(e.tree)
      ensures Shaped() == true && tree.mem.Keys == old(tree.mem.Keys) + {e.tree}
      ensures list.nodes == old(list.nodes) + [e.list] && list.repr == old(list.repr) + {e.list} && fresh(e.list)
    {
      hide RBTree.Valid, List.Valid, Ordered, Between, Table;
      e := new Entry(name);
      InsertAt(tree, e.tree, parent, side, c, byName);
      list.AddTail(e.list);
    }

    /** There is room: the entry takes the next index. */
    method TakeNext(node: Entry, ghost t: set<RBNode<Entry>>, ghost q: seq<ListNode<Entry>>) returns (idx: nat)
      requires Indexed() == true && Linked(t, q, items) == true && node !in items && use < max
      requires Made(node) == true
      modifies this`use, this`items, records, node`idx
      ensures Indexed() == true && Linked(t + {node.tree}, q + [node.list], items) == true
      ensures idx == |old(items)| && items == old(items) + [node]
    {
      idx := use;
      use := use + 1;
      records[idx] := node;
      node.idx := idx;
      LinkedAdded(t, q, items, node);
      items := items + [node];
    }

    /** There is no room: the entry takes the index of `nf`, the oldest one. */
    method TakeIndex(node: Entry, idx: nat, ghost nf: Entry, ghost t: set<RBNode<Entry>>, ghost q: seq<ListNode<Entry>>)
      requires Indexed() == true && Linked(t, q, items) == true && NoDup(q) == true && q != [] && nf == q[0].item && idx == nf.idx && node !in items
      requires Made(node) == true
      modifies this`items, records, node`idx
      ensures nf.tree != null && Indexed() == true && Linked(t + {node.tree} - {nf.tree}, (q + [node.list])[1..], items) == true
      ensures idx < |old(items)| && old(items)[idx] == nf && items == old(items)[idx := node]
    {
      assert q[0] in q && nf in items;
      records[idx] := node;
      node.idx := idx;
      LinkedEvicted(t, q, items, node, nf);
      items := items[idx := node];
    }

    /** The list loses its first node and the tree the same entry. */
    method RemoveOldest(nf: Entry)
      requires Shaped() == true
      requires nf.tree != null && nf.tree in tree.mem && list.nodes != [] && nf.list == list.nodes[0]
      modifies tree, tree.mem.Keys, list, list.repr
      ensures Shaped() == true
      ensures tree.mem.Keys == old(tree.mem.Keys) - {nf.tree} && list.nodes == old(list.nodes)[1..]
      ensures list.repr == old(list.repr) - {nf.list}
    {
      hide RBTree.Valid, List.Valid, Ordered, Table;
      EraseFrom(tree, nf.tree, byName);
      list.Del(nf.list, 0);
    }

    lemma Opened()
      requires Valid() == true
      ensures Shaped() == true && Indexed() == true && Linked(tree.mem.Keys, list.nodes, items) == true && NoDup(list.nodes) == true
    {
    }

    lemma Closed()
      requires Shaped() == true && Indexed() == true && Linked(tree.mem.Keys, list.nodes, items) == true
      ensures Valid() == true
    {
    }

    method Oldest() returns (node: ListNode<Entry>)
      requires Shaped() == true && list.nodes != []
      ensures node == list.nodes[0]
    {
      node := list.First();
    }

    /** A new name while there is room. */
    method FindFree(name: Bytes, parent: RBNode?<Entry>, side: Side, ghost c: Ctx<Entry>) returns (idx: nat, ghost node: Entry)
      requires Valid() == true && use < max
      requires Place(name, parent, side, c) == true
      modifies this`use, this`items, tree, tree.mem.Keys, list, list.repr, records
      ensures Valid() == true && node.name == name && Made(node) == true
      ensures fresh(tree.mem.Keys - old(tree.mem.Keys)) && fresh(list.repr - old(list.repr))
      ensures idx == |old(items)| && items == old(items) + [node] && list.nodes == old(list.nodes) + [node.list]
    {
      hide *;
      Opened();
      ghost var q, t := list.nodes, tree.mem.Keys;
      var e := Admit(name, parent, side, c);
      node := e;
      idx := TakeNext(e, t, q);
      Closed();
    }

    /** The oldest entry goes, and `node`, which tree and list hold already, takes its index. */
    method ReplaceOldest(node: Entry, ghost t: set<RBNode<Entry>>, ghost q: seq<ListNode<Entry>>) returns (idx: nat)
      requires Shaped() == true && tree.mem.Keys == t + {node.tree} && list.nodes == q + [node.list]
      requires Indexed() == true && Linked(t, q, items) == true && NoDup(q) == true && q != [] && node !in items
      requires Made(node) == true
      modifies this`items, tree, tree.mem.Keys, list, list.repr, records, node`idx
      ensures Shaped() == true && Indexed() == true && Linked(tree.mem.Keys, list.nodes, items) == true && Made(node) == true
      ensures idx < |old(items)| && old(items)[idx] == q[0].item && items == old(items)[idx := node]
      ensures list.nodes == (q + [node.list])[1..]
      ensures tree.mem.Keys <= old(tree.mem.Keys) && list.repr <= old(list.repr)
    {
      hide *;
      OldestLinked(t, q);
      var nl := Oldest();
      var nf := nl.item;
      idx := nf.idx;
      RemoveOldest(nf);
      TakeIndex(node, idx, nf, t, q);
    }

    lemma OldestLinked(t: set<RBNode<Entry>>, q: seq<ListNode<Entry>>)
      requires Linked(t, q, items) == true && q != []
      ensures var e := q[0].item; e in items && e.tree != null && e.tree in t && e.list == q[0]
    {
      assert q[0] in q;
    }

    /** A new name when the cache is full. */
    method FindOldest(name: Bytes, parent: RBNode?<Entry>, side: Side, ghost c: Ctx<Entry>, ghost q: seq<ListNode<Entry>>)
      returns (idx: nat, ghost node: Entry)
      requires Valid() == true && list.nodes == q && q != []
      requires Place(name, parent, side, c) == true
      modifies this`items, tree, tree.mem.Keys, list, list.repr, records
      ensures Valid() == true && node.name == name && Made(node) == true && list.nodes == (q + [node.list])[1..]
      ensures idx < |old(items)| && old(items)[idx] == q[0].item && items == old(items)[idx := node]
      ensures fresh(tree.mem.Keys - old(tree.mem.Keys)) && fresh(list.repr - old(list.repr))
    {
      hide *;
      Opened();
      ghost var t := tree.mem.Keys;
      var e := Admit(name, parent, side, c);
      node := e;
      idx := ReplaceOldest(e, t, q);
      Closed();
    }

    lemma Missing(name: Bytes)
      requires Valid() && name !in Table(Inorder(tree.shape), byName)
      ensures name !in Abs().slots
    {
      if name in Abs().slots {
        var i :| 0 <= i < |items| && items[i].name == name;
        NodesInorder(tree.shape);
        Found(Inorder(tree.shape), items[i].tree, byName);
      }
    }

    lemma AbsKnown(e: Entry)
      requires Valid() && max >= 1 && e in items
      ensures Consistent(Abs(), max) && e.name in Abs().lru
      ensures DnsCache.Find(Abs(), e.name, max) == (DnsCache.Touch(Abs(), e.name), e.idx)
    {
      AbsConsistent();
      var k := Position(e);
    }

    /** `FindFree` on the value the cache stands for. */
    lemma AbsFree(was: Cache, name: Bytes, q: seq<ListNode<Entry>>, old_: seq<Entry>, node: Entry)
      requires was == Cache(Names(Items(q)), Names(old_)) && Made(node) == true && node.name == name
      requires Consistent(was, max) && name !in was.slots && |old_| < max
      ensures (Cache(Names(Items(q + [node.list])), Names(old_ + [node])), |old_|) == DnsCache.Find(was, name, max)
    {
      NamesAdded(q, old_, node, node.list, 0);
    }

    lemma AbsOldest(was: Cache, name: Bytes, q: seq<ListNode<Entry>>, old_: seq<Entry>, node: Entry, idx: nat)
      requires was == Cache(Names(Items(q)), Names(old_)) && Made(node) == true && node.name == name
      requires Consistent(was, max) && name !in was.slots && |old_| == max >= 1 && idx < |old_|
      requires q != [] && old_[idx] == q[0].item
      ensures (Cache(Names(Items((q + [node.list])[1..])), Names(old_[idx := node])), idx) == DnsCache.Find(was, name, max)
    {
      NamesAdded(q, old_, node, node.list, idx);
      assert was.slots[idx] == was.lru[0];
      assert IndexOf(was.slots, was.lru[0]) == idx;
    }

    lemma SlotsAreItems()
      requires Valid()
      ensures use == |items| <= max && |list.nodes| == |items| && Consistent(Abs(), max)
      ensures Abs() == Cache(Names(Items(list.nodes)), Names(items))
    {
      AbsConsistent();
      assert |Abs().lru| == |list.nodes| && |Abs().slots| == |items|;
    }

    /** The entry of a name, or the place for it. */
    method Seek(name: Bytes) returns (e: Entry?, parent: RBNode?<Entry>, side: Side, ghost c: Ctx<Entry>)
      requires Valid()
      ensures e != null ==> e in items && e.name == name
      ensures e == null ==> name !in Abs().slots
      ensures e == null ==> Place(name, parent, side, c) == true
    {
      var node;
      node, parent, side, c := Walk(tree, name, byName);
      if node == null {
        Missing(name);
        return null, parent, side, c;
      }
      return node.item, parent, side, c;
    }

    /** A known name keeps its address, a new one gets a free or the oldest one. */
    method Find(name: Bytes) returns (idx: nat)
      requires Valid() && max >= 1
      modifies this`use, this`items, tree, tree.mem.Keys, list, list.repr, records
      ensures Valid() == true && Consistent(old(Abs()), max)
      ensures (Abs(), idx) == DnsCache.Find(old(Abs()), name, max)
      ensures fresh(tree.mem.Keys - old(tree.mem.Keys)) && fresh(list.repr - old(list.repr))
    {
      hide *;
      SlotsAreItems();
      ghost var (was, q, its) := (Abs(), list.nodes, items);
      var e, parent, side;
      ghost var c;
      e, parent, side, c := Seek(name);
      if e != null {
        AbsKnown(e);
        Touch(e);
        return e.idx;
      }
      ghost var node;
      if use < max {
        idx, node := FindFree(name, parent, side, c);
        AbsFree(was, name, q, its, node);
      } else {
        idx, node := FindOldest(name, parent, side, c, q);
        AbsOldest(was, name, q, its, node, idx);
      }
      SlotsAreItems();
    }

    /** The name behind an address, if it stands for one. */
    method Lookup(ip: Word) returns (name: Option<Bytes>)
      requires Valid() && max <= Signed(Not(mask))
      modifies list, list.repr
      ensures Valid()
      ensures Elems(old(Abs()).lru) == Elems(old(Abs()).slots) && (Abs(), name) == Resolve(old(Abs()), ip, mask)
    {
      AbsConsistent();
      var idx := Signed(And(ip, Not(mask)));
      if idx >= max {
        return None;
      }
      var node := records[idx];
      if node == null {
        return None;
      }
      Touch(node);
      return Some(node.name);
    }
  }

  /** `hev_mapped_dns_lookup` on the value the cache stands for. */
  ghost function Resolve(c: Cache, ip: Word, mask: Word): (Cache, Option<Bytes>)
    requires Elems(c.lru) == Elems(c.slots)
  {
    var idx := And(ip, Not(mask));
    (DnsCache.Lookup(c, idx), if idx < |c.slots| then Some(c.slots[idx]) else None)
  }

  /** A cache is made only when every index fits the host part of an address. */
  method New(net: Word, mask: Word, max: nat) returns (self: MappedDNS?)
    ensures self == null <==> max > Signed(Not(mask))
    ensures self != null ==> fresh(self) && self.Valid() && self.Abs() == Cache([], [])
    ensures self != null ==> self.net == net && self.mask == mask && self.max == max
  {
    if max > Signed(Not(mask)) {
      return null;
    }
    self := new MappedDNS(net, mask, max);
  }

  /** The address a name is given, looked up at once, is that name. */
  lemma FindThenLookup(c: Cache, name: Bytes, max: nat, net: Word, mask: Word)
    requires Consistent(c, max) && max >= 1 && max <= Signed(Not(mask))
    requires Ones(Not(mask)) && And(net, Not(mask)) == 0
    ensures var (c', idx) := DnsCache.Find(c, name, max);
      idx < WORD && Elems(c'.lru) == Elems(c'.slots) && Resolve(c', OrWord(net, idx), mask) == (DnsCache.Touch(c', name), Some(name))
  {
    var (c', idx) := DnsCache.Find(c, name, max);
    OnesRecover(net, Not(mask), idx);
    InBoth(c', max, name);
  }
}
