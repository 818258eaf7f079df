/** YAML documents as node graphs, and the order in which serialization walks them. */
module YamlGraph {
  import opened ByteOrder
  import opened Sequences

  /** Node ids count from 1; the pair (k, 0) is a key whose value is still to come. */
  datatype Node =
    | ScalarNode(tag: Bytes, value: Bytes, style: nat)
    | SequenceNode(tag: Bytes, style: nat, items: seq<nat>)
    | MappingNode(tag: Bytes, style: nat, pairs: seq<(nat, nat)>)

  /** The nodes a node refers to, in the order they are written. */
  function Children(n: Node): seq<nat> {
    match n
    case ScalarNode(_, _, _) => []
    case SequenceNode(_, _, items) => items
    case MappingNode(_, _, pairs) => Flat(pairs)
  }

  function Flat(pairs: seq<(nat, nat)>): (r: seq<nat>)
    ensures |r| == 2 * |pairs|
  {
    if pairs == [] then [] else Flat(pairs[..|pairs| - 1]) + [pairs[|pairs| - 1].0, pairs[|pairs| - 1].1]
  }

  /** Every id leads to a node. */
  ghost predicate ValidIds(nodes: seq<Node>) {
    forall k :: 0 <= k < |nodes| ==> InRange(nodes, Children(nodes[k]))
  }

  ghost predicate InRange(nodes: seq<Node>, cs: seq<nat>) {
    forall j :: 0 <= j < |cs| ==> 1 <= cs[j] <= |nodes|
  }

  /** Coming to a node: for the first time, again, and leaving a collection. */
  datatype Visit = First(id: nat) | Again(id: nat) | Leave(id: nat)

  ghost function All(nodes: seq<Node>): set<nat> {
    set i | 1 <= i <= |nodes| && Id(nodes, i)
  }

  ghost predicate Id(nodes: seq<Node>, i: nat) {
    1 <= i <= |nodes|
  }

  /** The walk from node `i`, when `todo` are the nodes not met so far; and what is left of them. */
  ghost function Walk(nodes: seq<Node>, todo: set<nat>, i: nat): (r: (seq<Visit>, set<nat>))
    requires ValidIds(nodes) && todo <= All(nodes)
    ensures r.1 <= todo && i !in r.1
    decreases |todo|, 0
  {
    if i !in todo then ([Again(i)], todo) else
    var n := nodes[i - 1];
    var (t, left) := WalkAll(nodes, todo - {i}, Children(n));
    ([First(i)] + t + (if n.ScalarNode? then [] else [Leave(i)]), left)
  }

  ghost function WalkAll(nodes: seq<Node>, todo: set<nat>, cs: seq<nat>): (r: (seq<Visit>, set<nat>))
    requires ValidIds(nodes) && todo <= All(nodes)
    ensures r.1 <= todo
    decreases |todo|, 1 + |cs|
  {
    if cs == [] then ([], todo) else
    var (t, left) := Walk(nodes, todo, cs[0]);
    Smaller(left, todo);
    var (t', left') := WalkAll(nodes, left, cs[1..]);
    (t + t', left')
  }

  lemma Smaller(a: set<nat>, b: set<nat>)
    requires a <= b
    ensures |a| <= |b|
  {
    assert b == a + (b - a);
  }

  /** The nodes met for the first time, in order. */
  ghost function Firsts(t: seq<Visit>): seq<nat> {
    if t == [] then [] else (if t[0].First? then [t[0].id] else []) + Firsts(t[1..])
  }

  lemma {:induction false} FirstsJoin(s: seq<Visit>, t: seq<Visit>)
    ensures Firsts(s + t) == Firsts(s) + Firsts(t)
  {
    if s == [] {
      assert s + t == t;
    } else {
      FirstsJoin(s[1..], t);
      assert (s + t)[1..] == s[1..] + t && (s + t)[0] == s[0];
      var h := if s[0].First? then [s[0].id] else [];
      assert h + (Firsts(s[1..]) + Firsts(t)) == h + Firsts(s[1..]) + Firsts(t);
    }
  }

  lemma NoDupJoin(a: seq<nat>, b: seq<nat>)
    requires NoDup(a) && NoDup(b) && forall x <- a :: x !in b
    ensures NoDup(a + b)
  {
    var s := a + b;
    forall i, j | 0 <= i < j < |s|
      ensures s[i] != s[j]
    {
      if i < |a| <= j {
        assert a[i] in a && b[j - |a|] in b;
      }
    }
  }

  /** A walk meets for the first time exactly the nodes it takes off the list, each once. */
  lemma {:induction false} WalkFirsts(nodes: seq<Node>, todo: set<nat>, i: nat)
    requires ValidIds(nodes) && todo <= All(nodes)
    ensures var (t, left) := Walk(nodes, todo, i); Takes(todo, left, Firsts(t))
    decreases |todo|, 0
  {
    var (t, left) := Walk(nodes, todo, i);
    if i in todo {
      var n := nodes[i - 1];
      var w := WalkAll(nodes, todo - {i}, Children(n)).0;
      WalkAllFirsts(nodes, todo - {i}, Children(n));
      var e := if n.ScalarNode? then [] else [Leave(i)];
      FirstsJoin([First(i)] + w, e);
      FirstsJoin([First(i)], w);
      assert Firsts(e) == [] && Firsts([First(i)]) == [i];
      assert Firsts(t) == [i] + Firsts(w);
      NoDupJoin([i], Firsts(w));
    }
  }

  ghost predicate Takes(todo: set<nat>, left: set<nat>, firsts: seq<nat>) {
    NoDup(firsts) && left <= todo && forall x :: x in firsts <==> x in todo && x !in left
  }

  lemma {:induction false} WalkAllFirsts(nodes: seq<Node>, todo: set<nat>, cs: seq<nat>)
    requires ValidIds(nodes) && todo <= All(nodes)
    ensures var (t, left) := WalkAll(nodes, todo, cs); Takes(todo, left, Firsts(t))
    decreases |todo|, 1 + |cs|
  {
    if cs != [] {
      var (t, left) := Walk(nodes, todo, cs[0]);
      Smaller(left, todo);
      WalkFirsts(nodes, todo, cs[0]);
      var (t', left') := WalkAll(nodes, left, cs[1..]);
      WalkAllFirsts(nodes, left, cs[1..]);
      FirstsJoin(t, t');
      NoDupJoin(Firsts(t), Firsts(t'));
    }
  }

  // ---------------------------------------------------------------- what a walk reaches

  /** The children of every node in `s` are in `s`. */
  ghost predicate Closed(nodes: seq<Node>, s: set<nat>) {
    forall x <- s :: 1 <= x <= |nodes| && forall c <- Children(nodes[x - 1]) :: c in s
  }

  lemma {:induction false} WalkCloses(nodes: seq<Node>, todo: set<nat>, i: nat)
    requires ValidIds(nodes) && todo <= All(nodes)
    ensures var left := Walk(nodes, todo, i).1;
      forall x <- todo :: x !in left ==> forall c <- Children(nodes[x - 1]) :: c !in left
    decreases |todo|, 0
  {
    if i in todo {
      WalkAllCloses(nodes, todo - {i}, Children(nodes[i - 1]));
    }
  }

  lemma {:induction false} WalkAllCloses(nodes: seq<Node>, todo: set<nat>, cs: seq<nat>)
    requires ValidIds(nodes) && todo <= All(nodes)
    ensures var left := WalkAll(nodes, todo, cs).1;
      (forall c <- cs :: c !in left)
      && forall x <- todo :: x !in left ==> forall c <- Children(nodes[x - 1]) :: c !in left
    decreases |todo|, 1 + |cs|
  {
    if cs != [] {
      var left := Walk(nodes, todo, cs[0]).1;
      Smaller(left, todo);
      WalkCloses(nodes, todo, cs[0]);
      WalkAllCloses(nodes, left, cs[1..]);
      assert forall c <- cs :: c == cs[0] || c in cs[1..];
    }
  }

  lemma {:induction false} WalkWithin(nodes: seq<Node>, todo: set<nat>, i: nat, s: set<nat>)
    requires ValidIds(nodes) && todo <= All(nodes) && Closed(nodes, s) && i in s
    ensures todo - Walk(nodes, todo, i).1 <= s
    decreases |todo|, 0
  {
    if i in todo {
      WalkAllWithin(nodes, todo - {i}, Children(nodes[i - 1]), s);
    }
  }

  lemma {:induction false} WalkAllWithin(nodes: seq<Node>, todo: set<nat>, cs: seq<nat>, s: set<nat>)
    requires ValidIds(nodes) && todo <= All(nodes) && Closed(nodes, s) && forall c <- cs :: c in s
    ensures todo - WalkAll(nodes, todo, cs).1 <= s
    decreases |todo|, 1 + |cs|
  {
    if cs != [] {
      var left := Walk(nodes, todo, cs[0]).1;
      Smaller(left, todo);
      WalkWithin(nodes, todo, cs[0], s);
      WalkAllWithin(nodes, left, cs[1..], s);
    }
  }

  /** The nodes in the order they are first met from the root. */
  ghost function FirstOrder(nodes: seq<Node>): seq<nat>
    requires ValidIds(nodes) && nodes != []
  {
    Firsts(Walk(nodes, All(nodes), 1).0)
  }

  /** They are the nodes reachable from the root, each once, and the root comes first. */
  lemma FirstOrderReaches(nodes: seq<Node>, s: set<nat>)
    requires ValidIds(nodes) && nodes != []
    ensures NoDup(FirstOrder(nodes)) && FirstOrder(nodes) != [] && FirstOrder(nodes)[0] == 1
    ensures Closed(nodes, Elems(FirstOrder(nodes)))
    ensures Closed(nodes, s) && 1 in s ==> Elems(FirstOrder(nodes)) <= s
  {
    var (t, left) := Walk(nodes, All(nodes), 1);
    WalkFirsts(nodes, All(nodes), 1);
    WalkCloses(nodes, All(nodes), 1);
    assert Id(nodes, 1);
    if Closed(nodes, s) && 1 in s {
      WalkWithin(nodes, All(nodes), 1, s);
    }
    forall x <- Elems(FirstOrder(nodes))
      ensures 1 <= x <= |nodes| && forall c <- Children(nodes[x - 1]) :: c in Elems(FirstOrder(nodes))
    {
      forall c <- Children(nodes[x - 1])
        ensures c in FirstOrder(nodes)
      {
        assert InRange(nodes, Children(nodes[x - 1]));
        assert Id(nodes, c);
      }
    }
  }
}
