/** Loading what was dumped: the events of a walk rebuild the graph. */
module YamlRoundTrip {
  import opened ByteOrder
  import opened Options
  import opened Sequences
  import opened YamlGraph
  import opened YamlLoad

  // ---------------------------------------------------------------- the events of a walk

  /** The event that introduces a node. */
  function NodeEvent(n: Node, name: Option<Bytes>): Event {
    match n
    case ScalarNode(tag, value, style) => ScalarEvent(name, Some(tag), value, style)
    case SequenceNode(tag, style, _) => SequenceStart(name, Some(tag), style)
    case MappingNode(tag, style, _) => MappingStart(name, Some(tag), style)
  }

  function VisitEvent(nodes: seq<Node>, names: seq<Option<Bytes>>, v: Visit): Event
    requires 1 <= v.id <= |nodes| == |names|
  {
    match v
    case First(i) => NodeEvent(nodes[i - 1], names[i - 1])
    case Again(i) => AliasEvent(if names[i - 1].Some? then names[i - 1].value else [])
    case Leave(i) => if nodes[i - 1].MappingNode? then MappingEnd else SequenceEnd
  }

  ghost predicate InNodes(nodes: seq<Node>, t: seq<Visit>) {
    forall k :: 0 <= k < |t| ==> 1 <= t[k].id <= |nodes|
  }

  function EventsOf(nodes: seq<Node>, names: seq<Option<Bytes>>, t: seq<Visit>): (r: seq<Event>)
    requires |nodes| == |names| && InNodes(nodes, t)
  {
    if t == [] then [] else [VisitEvent(nodes, names, t[0])] + EventsOf(nodes, names, t[1..])
  }

  lemma {:induction false} EventsJoin(nodes: seq<Node>, names: seq<Option<Bytes>>, s: seq<Visit>, t: seq<Visit>)
    requires |nodes| == |names| && InNodes(nodes, s) && InNodes(nodes, t)
    ensures InNodes(nodes, s + t) && EventsOf(nodes, names, s + t) == EventsOf(nodes, names, s) + EventsOf(nodes, names, t)
  {
    if s == [] {
      assert s + t == t;
    } else {
      assert (s + t)[0] == s[0] && (s + t)[1..] == s[1..] + t;
      EventsJoin(nodes, names, s[1..], t);
      assert [VisitEvent(nodes, names, s[0])] + (EventsOf(nodes, names, s[1..]) + EventsOf(nodes, names, t))
        == [VisitEvent(nodes, names, s[0])] + EventsOf(nodes, names, s[1..]) + EventsOf(nodes, names, t);
    }
  }

  lemma {:induction false} WalkInNodes(nodes: seq<Node>, todo: set<nat>, i: nat)
    requires ValidIds(nodes) && todo <= All(nodes) && 1 <= i <= |nodes|
    ensures InNodes(nodes, Walk(nodes, todo, i).0)
    decreases |todo|, 0
  {
    if i in todo {
      WalkAllInNodes(nodes, todo - {i}, Children(nodes[i - 1]));
    }
  }

  lemma {:induction false} WalkAllInNodes(nodes: seq<Node>, todo: set<nat>, cs: seq<nat>)
    requires ValidIds(nodes) && todo <= All(nodes) && InRange(nodes, cs)
    ensures InNodes(nodes, WalkAll(nodes, todo, cs).0)
    decreases |todo|, 1 + |cs|
  {
    if cs != [] {
      var left := Walk(nodes, todo, cs[0]).1;
      Smaller(left, todo);
      WalkInNodes(nodes, todo, cs[0]);
      WalkAllInNodes(nodes, left, cs[1..]);
    }
  }

  // ---------------------------------------------------------------- places and images

  /** The new id of a node: its place in the order of first visits. */
  function Place(ord: seq<nat>, i: nat): (p: nat)
    ensures p <= |ord| && (p == 0 <==> i !in ord) && (p > 0 ==> ord[p - 1] == i)
  {
    if ord == [] then 0
    else if ord[|ord| - 1] == i then |ord|
    else Place(ord[..|ord| - 1], i)
  }

  lemma {:induction false} PlaceGrows(ord: seq<nat>, more: seq<nat>, i: nat)
    requires NoDup(ord + more) && i in ord
    ensures Place(ord + more, i) == Place(ord, i)
  {
    var s := ord + more;
    var (p, q) := (Place(ord, i), Place(s, i));
    assert s[p - 1] == i && s[q - 1] == i;
  }

  function Places(ord: seq<nat>, cs: seq<nat>): (r: seq<nat>)
    ensures |r| == |cs|
  {
    seq(|cs|, k requires 0 <= k < |cs| => Place(ord, cs[k]))
  }

  /** A node as it is loaded: its children by their new ids. */
  function Image(ord: seq<nat>, n: Node): Node {
    AddAll(Bare(n), Places(ord, Children(n)))
  }

  ghost function Images(nodes: seq<Node>, ord: seq<nat>, some: seq<nat>): (r: seq<Node>)
    requires InRange(nodes, some)
    ensures |r| == |some|
  {
    seq(|some|, k requires 0 <= k < |some| => Image(ord, nodes[some[k] - 1]))
  }

  /** The aliases once the nodes of `ord` are loaded. */
  ghost function AliasList(names: seq<Option<Bytes>>, ord: seq<nat>): seq<(Bytes, nat)>
    requires forall k :: 0 <= k < |ord| ==> 1 <= ord[k] <= |names|
  {
    if ord == [] then [] else
    var (rest, name) := (AliasList(names, ord[..|ord| - 1]), names[ord[|ord| - 1] - 1]);
    if name.Some? then rest + [(name.value, |ord|)] else rest
  }

  ghost predicate Distinct(names: seq<Option<Bytes>>) {
    forall i, j :: 0 <= i < j < |names| && names[i].Some? ==> names[i] != names[j]
  }

  lemma {:induction false} FindLast(aliases: seq<(Bytes, nat)>, a: Bytes, e: (Bytes, nat))
    ensures Find(aliases + [e], a) == if Find(aliases, a).Some? then Find(aliases, a) else if e.0 == a then Some(e.1) else None
  {
    if aliases != [] {
      FindLast(aliases[1..], a, e);
      assert (aliases + [e])[1..] == aliases[1..] + [e];
    }
  }

  /** A name leads to the place of its node, once that node is loaded. */
  lemma {:induction false} FindPlace(names: seq<Option<Bytes>>, ord: seq<nat>, i: nat)
    requires (forall k :: 0 <= k < |ord| ==> 1 <= ord[k] <= |names|) && NoDup(ord) && Distinct(names)
    requires 1 <= i <= |names| && names[i - 1].Some?
    ensures Find(AliasList(names, ord), names[i - 1].value) == if i in ord then Some(Place(ord, i)) else None
  {
    if ord != [] {
      var m := |ord| - 1;
      FindPlace(names, ord[..m], i);
      var name := names[ord[m] - 1];
      assert ord == ord[..m] + [ord[m]];
      if name.Some? {
        FindLast(AliasList(names, ord[..m]), names[i - 1].value, (name.value, |ord|));
        assert name == names[i - 1] ==> ord[m] == i;
      }
      if i in ord[..m] {
        PlaceGrows(ord[..m], [ord[m]], i);
      }
    }
  }

  // ---------------------------------------------------------------- one node

  ghost predicate ParentOk(nodes: seq<Node>, ctx: seq<nat>) {
    ctx == [] || (1 <= ctx[|ctx| - 1] <= |nodes| && !nodes[ctx[|ctx| - 1] - 1].ScalarNode?)
  }

  /** The nodes after the collection being filled got these children. */
  ghost function Adopts(nodes: seq<Node>, ctx: seq<nat>, ids: seq<nat>): (r: seq<Node>)
    requires ParentOk(nodes, ctx)
    ensures |r| == |nodes|
  {
    if ctx == [] then nodes else
    var p := ctx[|ctx| - 1];
    nodes[p - 1 := AddAll(nodes[p - 1], ids)]
  }

  lemma {:induction false} AddAllKind(n: Node, ids: seq<nat>)
    requires !n.ScalarNode?
    ensures !AddAll(n, ids).ScalarNode? && (AddAll(n, ids).MappingNode? <==> n.MappingNode?)
  {
    if ids != [] {
      AddAllKind(n, ids[..|ids| - 1]);
    }
  }

  lemma {:induction false} AddAllJoin(n: Node, a: seq<nat>, b: seq<nat>)
    ensures AddAll(AddAll(n, a), b) == AddAll(n, a + b)
  {
    if b == [] {
      assert a + b == a;
    } else {
      var m := |b| - 1;
      AddAllJoin(n, a, b[..m]);
      assert (a + b)[..|a + b| - 1] == a + b[..m] && (a + b)[|a + b| - 1] == b[m];
    }
  }

  lemma AddOne(n: Node, id: nat)
    ensures AddAll(n, [id]) == AddChild(n, id)
  {
    assert [id][..0] == [];
    assert AddAll(n, []) == n;
  }

  /** The loader when the nodes of `ord` have been met. */
  ghost predicate Synced(nodes: seq<Node>, names: seq<Option<Bytes>>, todo: set<nat>, ord: seq<nat>, l: Loader) {
    && ValidIds(nodes) && |names| == |nodes| && Distinct(names) && todo <= All(nodes)
    && NoDup(ord) && (forall x :: x in ord <==> x in All(nodes) && x !in todo)
    && |l.nodes| == |ord| && InRange(nodes, ord) && l.aliases == AliasList(names, ord) && ParentOk(l.nodes, l.ctx)
  }

  /** A new node: pushed, named, handed to its parent, and opened if it is a collection. */
  lemma LoadFirst(nodes: seq<Node>, names: seq<Option<Bytes>>, todo: set<nat>, ord: seq<nat>, l: Loader, i: nat)
    requires Synced(nodes, names, todo, ord, l) && i in todo
    ensures InRange(nodes, ord + [i])
    ensures Step(l, NodeEvent(nodes[i - 1], names[i - 1])) ==
      Some(Loader(Adopts(l.nodes, l.ctx, [|ord| + 1]) + [Bare(nodes[i - 1])], AliasList(names, ord + [i]),
                  l.ctx + if nodes[i - 1].ScalarNode? then [] else [|ord| + 1]))
  {
    var (n, name, b) := (nodes[i - 1], names[i - 1], Bare(nodes[i - 1]));
    assert InRange(nodes, ord + [i]);
    assert (ord + [i])[..|ord|] == ord;
    assert Register(l.aliases, |ord| + 1, name) == Some(AliasList(names, ord + [i])) by {
      if name.Some? {
        FindPlace(names, ord, i);
      }
    }
    assert NodeAdd(l.nodes + [b], l.ctx, |ord| + 1) == Some(Adopts(l.nodes, l.ctx, [|ord| + 1]) + [b]) by {
      if l.ctx != [] {
        var p := l.ctx[|l.ctx| - 1];
        AddOne(l.nodes[p - 1], |ord| + 1);
        assert (l.nodes + [b])[p - 1 := AddChild(l.nodes[p - 1], |ord| + 1)] == l.nodes[p - 1 := AddChild(l.nodes[p - 1], |ord| + 1)] + [b];
      }
    }
    assert l.ctx + [] == l.ctx;
    hide AliasList, Register, NodeAdd, Adopts, ParentOk, NoDup, Distinct;
  }

  lemma LoadAgain(nodes: seq<Node>, names: seq<Option<Bytes>>, todo: set<nat>, ord: seq<nat>, l: Loader, i: nat)
    requires Synced(nodes, names, todo, ord, l) && 1 <= i <= |nodes| && i !in todo && names[i - 1].Some?
    ensures Step(l, AliasEvent(names[i - 1].value)) == Some(l.(nodes := Adopts(l.nodes, l.ctx, [Place(ord, i)])))
  {
    assert Id(nodes, i) && i in All(nodes) && i in ord;
    FindPlace(names, ord, i);
    if l.ctx != [] {
      AddOne(l.nodes[l.ctx[|l.ctx| - 1] - 1], Place(ord, i));
    }
  }

  // ---------------------------------------------------------------- a walk

  ghost predicate Named(names: seq<Option<Bytes>>, t: seq<Visit>) {
    forall k :: 0 <= k < |t| && t[k].Again? ==> 1 <= t[k].id <= |names| && names[t[k].id - 1].Some?
  }

  /** The events of `t` hand `ids` to the open collection and add the images of the new nodes. */
  ghost predicate Loads(nodes: seq<Node>, names: seq<Option<Bytes>>, t: seq<Visit>, ord: seq<nat>, l: Loader, ids: seq<nat>) {
    && |nodes| == |names| && InNodes(nodes, t) && ParentOk(l.nodes, l.ctx)
    && InRange(nodes, Firsts(t)) && InRange(nodes, ord + Firsts(t))
    && LoadAll(l, EventsOf(nodes, names, t)) ==
       Some(Loader(Adopts(l.nodes, l.ctx, ids) + Images(nodes, ord + Firsts(t), Firsts(t)), AliasList(names, ord + Firsts(t)), l.ctx))
  }

  lemma SyncedAfter(nodes: seq<Node>, names: seq<Option<Bytes>>, todo: set<nat>, left: set<nat>, firsts: seq<nat>, ord: seq<nat>,
                    l: Loader, k: Loader)
    requires Synced(nodes, names, todo, ord, l) && Takes(todo, left, firsts)
    requires InRange(nodes, ord + firsts) && |k.nodes| == |ord + firsts| && k.aliases == AliasList(names, ord + firsts)
    requires ParentOk(k.nodes, k.ctx)
    ensures Synced(nodes, names, left, ord + firsts, k) == true
  {
    NoDupJoin(ord, firsts);
  }

  /** Images do not change as the order grows, once their children are in it. */
  lemma ImagesGrow(nodes: seq<Node>, ord: seq<nat>, more: seq<nat>, some: seq<nat>)
    requires InRange(nodes, some) && NoDup(ord + more)
    requires forall k :: 0 <= k < |some| ==> forall c <- Children(nodes[some[k] - 1]) :: c in ord
    ensures Images(nodes, ord + more, some) == Images(nodes, ord, some)
  {
    forall k | 0 <= k < |some|
      ensures Image(ord + more, nodes[some[k] - 1]) == Image(ord, nodes[some[k] - 1])
    {
      var cs := Children(nodes[some[k] - 1]);
      forall j | 0 <= j < |cs|
        ensures Place(ord + more, cs[j]) == Place(ord, cs[j])
      {
        PlaceGrows(ord, more, cs[j]);
      }
      assert Places(ord + more, cs) == Places(ord, cs);
    }
  }

  lemma WalkShape(nodes: seq<Node>, todo: set<nat>, i: nat)
    requires ValidIds(nodes) && todo <= All(nodes) && i in todo
    ensures var (n, w) := (nodes[i - 1], WalkAll(nodes, todo - {i}, Children(nodes[i - 1])).0);
      var t := Walk(nodes, todo, i).0;
      t == [First(i)] + w + (if n.ScalarNode? then [] else [Leave(i)]) && Firsts(t) == [i] + Firsts(w)
      && Walk(nodes, todo, i).1 == WalkAll(nodes, todo - {i}, Children(n)).1
      && (n.ScalarNode? ==> w == [])
  {
    var (n, w) := (nodes[i - 1], WalkAll(nodes, todo - {i}, Children(nodes[i - 1])).0);
    var e := if n.ScalarNode? then [] else [Leave(i)];
    FirstsJoin([First(i)] + w, e);
    FirstsJoin([First(i)], w);
    assert Firsts(e) == [] && Firsts([First(i)]) == [i];
  }

  lemma LoadOne(l: Loader, e: Event)
    requires Step(l, e).Some?
    ensures LoadAll(l, [e]) == Step(l, e)
  {
    assert [e][1..] == [];
  }

  lemma LoadWalkAgain(nodes: seq<Node>, names: seq<Option<Bytes>>, todo: set<nat>, ord: seq<nat>, l: Loader, i: nat)
    requires Synced(nodes, names, todo, ord, l) && 1 <= i <= |nodes| && i !in todo && names[i - 1].Some?
    ensures Loads(nodes, names, Walk(nodes, todo, i).0, ord, l, [Place(ord, i)]) == true && ord + Firsts(Walk(nodes, todo, i).0) == ord
  {
    var t := [Again(i)];
    LoadAgain(nodes, names, todo, ord, l, i);
    var e := AliasEvent(names[i - 1].value);
    LoadOne(l, e);
    assert t[1..] == [] && EventsOf(nodes, names, t) == [e];
    assert Firsts(t) == [] && ord + [] == ord;
    var a := Adopts(l.nodes, l.ctx, [Place(ord, i)]);
    assert Images(nodes, ord, []) == [] && a + [] == a;
  }

  /** The loader inside a collection just opened. */
  ghost function Inside(nodes: seq<Node>, names: seq<Option<Bytes>>, ord: seq<nat>, l: Loader, i: nat): Loader
    requires ParentOk(l.nodes, l.ctx) && InRange(nodes, ord + [i]) && |names| == |nodes| && 1 <= i <= |nodes|
  {
    Loader(Adopts(l.nodes, l.ctx, [|ord| + 1]) + [Bare(nodes[i - 1])], AliasList(names, ord + [i]), l.ctx + [|ord| + 1])
  }

  lemma InsideSynced(nodes: seq<Node>, names: seq<Option<Bytes>>, todo: set<nat>, ord: seq<nat>, l: Loader, i: nat)
    requires Synced(nodes, names, todo, ord, l) && i in todo && !nodes[i - 1].ScalarNode?
    ensures InRange(nodes, ord + [i])
    ensures Synced(nodes, names, todo - {i}, ord + [i], Inside(nodes, names, ord, l, i)) == true
  {
    assert InRange(nodes, ord + [i]);
    NoDupJoin(ord, [i]);
    var k := Inside(nodes, names, ord, l, i);
    assert k.ctx[|k.ctx| - 1] == |ord| + 1 && k.nodes[|ord|] == Bare(nodes[i - 1]);
  }

  lemma LoadThree(l: Loader, k: Loader, k2: Loader, e0: Event, es: seq<Event>, e1: Event)
    requires Step(l, e0) == Some(k) && LoadAll(k, es) == Some(k2) && Step(k2, e1).Some?
    ensures LoadAll(l, [e0] + es + [e1]) == Step(k2, e1)
  {
    LoadOne(l, e0);
    LoadOne(k2, e1);
    LoadJoin(l, k, [e0], es);
    LoadJoin(l, k2, [e0] + es, [e1]);
  }

  /** The end event of a collection whose children are all there. */
  lemma LeaveStep(nodes: seq<Node>, names: seq<Option<Bytes>>, ord: seq<nat>, l: Loader, i: nat, ids: seq<nat>, more: seq<Node>,
                  aliases: seq<(Bytes, nat)>)
    requires 1 <= i <= |nodes| == |names| && !nodes[i - 1].ScalarNode? && InRange(nodes, ord + [i])
    requires ParentOk(l.nodes, l.ctx) && |l.nodes| == |ord|
    ensures var (n, k) := (nodes[i - 1], Inside(nodes, names, ord, l, i));
      var k2 := Loader(Adopts(k.nodes, k.ctx, ids) + more, aliases, k.ctx);
      ParentOk(k.nodes, k.ctx) && Step(k2, VisitEvent(nodes, names, Leave(i)))
        == Some(Loader(Adopts(l.nodes, l.ctx, [|ord| + 1]) + [AddAll(Bare(n), ids)] + more, aliases, l.ctx))
  {
    var (n, k) := (nodes[i - 1], Inside(nodes, names, ord, l, i));
    AddAllKind(Bare(n), ids);
    var a := Adopts(l.nodes, l.ctx, [|ord| + 1]);
    var inner := Adopts(k.nodes, k.ctx, ids);
    assert inner == a + [AddAll(Bare(n), ids)];
    assert (inner + more)[|ord|] == AddAll(Bare(n), ids);
    assert k.ctx[..|k.ctx| - 1] == l.ctx;
  }

  /** Leaving the collection: what was gathered inside is the image of the node. */
  lemma LoadLeave(nodes: seq<Node>, names: seq<Option<Bytes>>, todo: set<nat>, ord: seq<nat>, l: Loader, i: nat, w: seq<Visit>)
    requires Synced(nodes, names, todo, ord, l) == true && i in todo && 1 <= i <= |nodes| == |names| && !nodes[i - 1].ScalarNode?
    requires InRange(nodes, ord + [i]) == true && InNodes(nodes, w) == true && ParentOk(l.nodes, l.ctx) == true && |l.nodes| == |ord|
    requires Loads(nodes, names, w, ord + [i], Inside(nodes, names, ord, l, i), Places(ord + [i] + Firsts(w), Children(nodes[i - 1]))) == true
    requires Firsts([First(i)] + w + [Leave(i)]) == [i] + Firsts(w)
    ensures Loads(nodes, names, [First(i)] + w + [Leave(i)], ord, l, [|ord| + 1]) == true
  {
    var (n, k, ord') := (nodes[i - 1], Inside(nodes, names, ord, l, i), ord + [i] + Firsts(w));
    var ids := Places(ord', Children(n));
    var (images, aliases) := (Images(nodes, ord', Firsts(w)), AliasList(names, ord'));
    var e1 := VisitEvent(nodes, names, Leave(i));
    var k2 := Loader(Adopts(k.nodes, k.ctx, ids) + images, aliases, k.ctx);
    var es := EventsOf(nodes, names, w);
    assert LoadAll(k, es) == Some(k2);
    hide *;
    LoadFirst(nodes, names, todo, ord, l, i);
    LeaveStep(nodes, names, ord, l, i, ids, images, aliases);
    LoadThree(l, k, k2, NodeEvent(n, names[i - 1]), es, e1);
    EventsParts(nodes, names, i, w);
    LeaveLoads(nodes, names, ord, l, i, Firsts(w), [First(i)] + w + [Leave(i)]);
  }

  lemma ImagesCons(nodes: seq<Node>, ord: seq<nat>, i: nat, some: seq<nat>)
    requires 1 <= i <= |nodes| && InRange(nodes, some)
    ensures InRange(nodes, [i] + some) && Images(nodes, ord, [i] + some) == [Image(ord, nodes[i - 1])] + Images(nodes, ord, some)
  {
    hide Image;
  }

  /** The same result, seen from outside. */
  lemma LeaveLoads(nodes: seq<Node>, names: seq<Option<Bytes>>, ord: seq<nat>, l: Loader, i: nat, f: seq<nat>, t: seq<Visit>)
    requires 1 <= i <= |nodes| == |names| && ParentOk(l.nodes, l.ctx) == true && InNodes(nodes, t) == true
    requires InRange(nodes, f) && InRange(nodes, ord + [i] + f) == true && Firsts(t) == [i] + f
    requires LoadAll(l, EventsOf(nodes, names, t)) ==
      Some(Loader(Adopts(l.nodes, l.ctx, [|ord| + 1]) + [Image(ord + [i] + f, nodes[i - 1])] + Images(nodes, ord + [i] + f, f),
                  AliasList(names, ord + [i] + f), l.ctx))
    ensures Loads(nodes, names, t, ord, l, [|ord| + 1]) == true
  {
    Assoc(ord, [i], f);
    ImagesCons(nodes, ord + [i] + f, i, f);
    Assoc(Adopts(l.nodes, l.ctx, [|ord| + 1]), [Image(ord + [i] + f, nodes[i - 1])], Images(nodes, ord + [i] + f, f));
    hide LoadAll, EventsOf, Image, AliasList, Images, Firsts, Adopts, ParentOk;
  }

  lemma EventsParts(nodes: seq<Node>, names: seq<Option<Bytes>>, i: nat, w: seq<Visit>)
    requires |nodes| == |names| && 1 <= i <= |nodes| && InNodes(nodes, w)
    ensures InNodes(nodes, [First(i)] + w + [Leave(i)])
    ensures EventsOf(nodes, names, [First(i)] + w + [Leave(i)])
      == [NodeEvent(nodes[i - 1], names[i - 1])] + EventsOf(nodes, names, w) + [VisitEvent(nodes, names, Leave(i))]
  {
    EventsJoin(nodes, names, [First(i)], w);
    EventsJoin(nodes, names, [First(i)] + w, [Leave(i)]);
    assert [First(i)][1..] == [] && [Leave(i)][1..] == [];
  }

  lemma LoadScalar(nodes: seq<Node>, names: seq<Option<Bytes>>, todo: set<nat>, ord: seq<nat>, l: Loader, i: nat)
    requires Synced(nodes, names, todo, ord, l) && i in todo && nodes[i - 1].ScalarNode?
    ensures Loads(nodes, names, [First(i)], ord, l, [|ord| + 1]) == true
  {
    var (n, t) := (nodes[i - 1], [First(i)]);
    LoadFirst(nodes, names, todo, ord, l, i);
    LoadOne(l, NodeEvent(n, names[i - 1]));
    assert t[1..] == [] && EventsOf(nodes, names, t) == [NodeEvent(n, names[i - 1])];
    assert Firsts(t) == [i] && l.ctx + [] == l.ctx;
    assert Places(ord + [i], Children(n)) == [];
    assert Images(nodes, ord + [i], [i]) == [Bare(n)];
    hide LoadAll, EventsOf, AliasList, Images, Firsts, Adopts, NoDup, Distinct;
  }

  lemma PlaceLast(ord: seq<nat>, i: nat, more: seq<nat>)
    requires NoDup(ord + [i] + more)
    ensures Place(ord + [i] + more, i) == |ord| + 1
  {
    assert (ord + [i])[|ord|] == i;
    PlaceGrows(ord + [i], more, i);
  }

  lemma NamedParts(names: seq<Option<Bytes>>, a: seq<Visit>, b: seq<Visit>)
    requires Named(names, a + b)
    ensures Named(names, a) && Named(names, b)
  {
    assert forall k :: 0 <= k < |a| ==> (a + b)[k] == a[k];
    assert forall k :: 0 <= k < |b| ==> (a + b)[|a| + k] == b[k];
  }

  /** Two walks in a row. */
  lemma LoadsJoin(nodes: seq<Node>, names: seq<Option<Bytes>>, s: seq<Visit>, t: seq<Visit>, ord: seq<nat>, l: Loader,
                  p: nat, ids: seq<nat>, k: Loader)
    requires |nodes| == |names| && ParentOk(l.nodes, l.ctx) && InNodes(nodes, s) && InRange(nodes, Firsts(s)) && InRange(nodes, ord + Firsts(s))
    requires Loads(nodes, names, s, ord, l, [p])
    requires k == Loader(Adopts(l.nodes, l.ctx, [p]) + Images(nodes, ord + Firsts(s), Firsts(s)), AliasList(names, ord + Firsts(s)), l.ctx)
    requires Loads(nodes, names, t, ord + Firsts(s), k, ids)
    requires var ord' := ord + Firsts(s) + Firsts(t); Images(nodes, ord', Firsts(s)) == Images(nodes, ord + Firsts(s), Firsts(s))
    ensures Loads(nodes, names, s + t, ord, l, [p] + ids) == true
  {
    FirstsJoin(s, t);
    EventsJoin(nodes, names, s, t);
    LoadJoin(l, k, EventsOf(nodes, names, s), EventsOf(nodes, names, t));
    Assoc(ord, Firsts(s), Firsts(t));
    var ord' := ord + Firsts(s) + Firsts(t);
    hide LoadAll, EventsOf, AliasList, Firsts;
    var (a, m1, m2) := (Adopts(l.nodes, l.ctx, [p]), Images(nodes, ord', Firsts(s)), Images(nodes, ord', Firsts(t)));
    ImagesJoin(nodes, ord', Firsts(s), Firsts(t));
    AdoptsJoin(l.nodes, l.ctx, [p], ids, m1);
    Assoc(Adopts(l.nodes, l.ctx, [p] + ids), m1, m2);
  }

  lemma ImagesJoin(nodes: seq<Node>, ord: seq<nat>, a: seq<nat>, b: seq<nat>)
    requires InRange(nodes, a) && InRange(nodes, b)
    ensures InRange(nodes, a + b) && Images(nodes, ord, a + b) == Images(nodes, ord, a) + Images(nodes, ord, b)
  {
    hide Image;
  }

  lemma AdoptsJoin(nodes: seq<Node>, ctx: seq<nat>, a: seq<nat>, b: seq<nat>, more: seq<Node>)
    requires ParentOk(nodes, ctx)
    ensures ParentOk(Adopts(nodes, ctx, a) + more, ctx)
    ensures Adopts(Adopts(nodes, ctx, a) + more, ctx, b) == Adopts(nodes, ctx, a + b) + more
  {
    if ctx != [] {
      AddAllKind(nodes[ctx[|ctx| - 1] - 1], a);
      AddAllJoin(nodes[ctx[|ctx| - 1] - 1], a, b);
    }
  }

  /** The events of a walk load its nodes: the collection being filled gets the node walked to, new nodes get their images. */
  lemma {:induction false} LoadWalk(nodes: seq<Node>, names: seq<Option<Bytes>>, todo: set<nat>, ord: seq<nat>, l: Loader, i: nat)
    requires Synced(nodes, names, todo, ord, l) && 1 <= i <= |nodes| && Named(names, Walk(nodes, todo, i).0)
    ensures var t := Walk(nodes, todo, i).0; Loads(nodes, names, t, ord, l, [Place(ord + Firsts(t), i)]) == true
    decreases |todo|, 0
  {
    var t := Walk(nodes, todo, i).0;
    if i !in todo {
      assert t[0].Again?;
      LoadWalkAgain(nodes, names, todo, ord, l, i);
    } else {
      WalkFirsts(nodes, todo, i);
      NoDupJoin(ord, Firsts(t));
      WalkShape(nodes, todo, i);
      var (n, w) := (nodes[i - 1], WalkAll(nodes, todo - {i}, Children(nodes[i - 1])).0);
      Assoc(ord, [i], Firsts(w));
      PlaceLast(ord, i, Firsts(w));
      if n.ScalarNode? {
        assert t == [First(i)];
        LoadScalar(nodes, names, todo, ord, l, i);
      } else {
        InsideSynced(nodes, names, todo, ord, l, i);
        NamedParts(names, [First(i)] + w, [Leave(i)]);
        NamedParts(names, [First(i)], w);
        WalkAllInNodes(nodes, todo - {i}, Children(n));
        hide *;
        LoadWalkAll(nodes, names, todo - {i}, ord + [i], Inside(nodes, names, ord, l, i), Children(n));
        LoadLeave(nodes, names, todo, ord, l, i, w);
      }
    }
  }

  lemma {:induction false} LoadWalkAll(nodes: seq<Node>, names: seq<Option<Bytes>>, todo: set<nat>, ord: seq<nat>, l: Loader, cs: seq<nat>)
    requires Synced(nodes, names, todo, ord, l) && InRange(nodes, cs) && Named(names, WalkAll(nodes, todo, cs).0)
    ensures var t := WalkAll(nodes, todo, cs).0; Loads(nodes, names, t, ord, l, Places(ord + Firsts(t), cs)) == true
    decreases |todo|, 1 + |cs|
  {
    if cs == [] {
      LoadNothing(nodes, names, ord, l);
    } else {
      hide *;
      SyncedIs(nodes, names, todo, ord, l);
      var (t, left) := Walk(nodes, todo, cs[0]);
      var t' := WalkAll(nodes, left, cs[1..]).0;
      Smaller(left, todo);
      WalkAllShape(nodes, todo, cs);
      NamedParts(names, t, t');
      var ord1 := ord + Firsts(t);
      var k := LoadHead(nodes, names, todo, ord, l, cs);
      LoadWalkAll(nodes, names, left, ord1, k, cs[1..]);
      LoadTail(nodes, names, todo, ord, l, cs, k);
    }
  }

  /** The first of a list. */
  lemma {:induction false} LoadHead(nodes: seq<Node>, names: seq<Option<Bytes>>, todo: set<nat>, ord: seq<nat>, l: Loader, cs: seq<nat>)
    returns (k: Loader)
    requires Synced(nodes, names, todo, ord, l) && InRange(nodes, cs) && cs != [] && Named(names, Walk(nodes, todo, cs[0]).0)
    ensures var (t, left) := Walk(nodes, todo, cs[0]);
      var (ord1, p) := (ord + Firsts(t), Place(ord + Firsts(t), cs[0]));
      && ParentOk(l.nodes, l.ctx) && InRange(nodes, Firsts(t)) && InRange(nodes, ord1) && Loads(nodes, names, t, ord, l, [p]) == true
      && k == Loader(Adopts(l.nodes, l.ctx, [p]) + Images(nodes, ord1, Firsts(t)), AliasList(names, ord1), l.ctx)
      && Synced(nodes, names, left, ord1, k) == true
    decreases |todo|, 1
  {
    hide *;
    SyncedIs(nodes, names, todo, ord, l);
    var (t, left) := Walk(nodes, todo, cs[0]);
    WalkAllShape(nodes, todo, cs);
    WalkMeets(nodes, todo, ord, cs);
    FirstsChildren(nodes, todo, ord, cs[0]);
    LoadWalk(nodes, names, todo, ord, l, cs[0]);
    var ord1 := ord + Firsts(t);
    var p := Place(ord1, cs[0]);
    InNames(nodes, names, ord1);
    k := Loader(Adopts(l.nodes, l.ctx, [p]) + Images(nodes, ord1, Firsts(t)), AliasList(names, ord1), l.ctx);
    AdoptsJoin(l.nodes, l.ctx, [p], [], Images(nodes, ord1, Firsts(t)));
    SyncedAfter(nodes, names, todo, left, Firsts(t), ord, l, k);
  }

  /** And the others. */
  lemma LoadTail(nodes: seq<Node>, names: seq<Option<Bytes>>, todo: set<nat>, ord: seq<nat>, l: Loader, cs: seq<nat>, k: Loader)
    requires Synced(nodes, names, todo, ord, l) && InRange(nodes, cs) && cs != []
    requires var (t, left) := Walk(nodes, todo, cs[0]);
      var (t', ord1, p) := (WalkAll(nodes, left, cs[1..]).0, ord + Firsts(t), Place(ord + Firsts(t), cs[0]));
      && InRange(nodes, Firsts(t)) && InRange(nodes, ord1) && Loads(nodes, names, t, ord, l, [p]) == true
      && k == Loader(Adopts(l.nodes, l.ctx, [p]) + Images(nodes, ord1, Firsts(t)), AliasList(names, ord1), l.ctx)
      && Loads(nodes, names, t', ord1, k, Places(ord1 + Firsts(t'), cs[1..])) == true
    ensures var t := WalkAll(nodes, todo, cs).0; Loads(nodes, names, t, ord, l, Places(ord + Firsts(t), cs)) == true
  {
    hide *;
    SyncedIs(nodes, names, todo, ord, l);
    var (t, left) := Walk(nodes, todo, cs[0]);
    var t' := WalkAll(nodes, left, cs[1..]).0;
    var (ord1, p) := (ord + Firsts(t), Place(ord + Firsts(t), cs[0]));
    WalkAllShape(nodes, todo, cs);
    WalkMeets(nodes, todo, ord, cs);
    FirstsChildren(nodes, todo, ord, cs[0]);
    PlaceGrows(ord1, Firsts(t'), cs[0]);
    PlacesCons(ord1 + Firsts(t'), cs);
    ImagesGrow(nodes, ord1, Firsts(t'), Firsts(t));
    Assoc(ord, Firsts(t), Firsts(t'));
    LoadsJoin(nodes, names, t, t', ord, l, p, Places(ord1 + Firsts(t'), cs[1..]), k);
  }

  lemma InNames(nodes: seq<Node>, names: seq<Option<Bytes>>, o: seq<nat>)
    requires |nodes| == |names| && InRange(nodes, o)
    ensures forall k :: 0 <= k < |o| ==> 1 <= o[k] <= |names|
  {
  }

  lemma SyncedIs(nodes: seq<Node>, names: seq<Option<Bytes>>, todo: set<nat>, ord: seq<nat>, l: Loader)
    requires Synced(nodes, names, todo, ord, l)
    ensures ValidIds(nodes) && |names| == |nodes| && todo <= All(nodes) && NoDup(ord) && ParentOk(l.nodes, l.ctx)
    ensures |l.nodes| == |ord| && forall x :: x in ord <==> x in All(nodes) && x !in todo
  {
  }

  lemma WalkAllShape(nodes: seq<Node>, todo: set<nat>, cs: seq<nat>)
    requires ValidIds(nodes) && todo <= All(nodes) && InRange(nodes, cs) && cs != []
    ensures var (t, left) := Walk(nodes, todo, cs[0]);
      var t' := WalkAll(nodes, left, cs[1..]).0;
      && WalkAll(nodes, todo, cs).0 == t + t' && Firsts(t + t') == Firsts(t) + Firsts(t')
      && 1 <= cs[0] <= |nodes| && InRange(nodes, cs[1..]) && InNodes(nodes, t) && InNodes(nodes, t')
  {
    var (t, left) := Walk(nodes, todo, cs[0]);
    WalkInNodes(nodes, todo, cs[0]);
    WalkAllInNodes(nodes, left, cs[1..]);
    FirstsJoin(t, WalkAll(nodes, left, cs[1..]).0);
  }

  lemma PlacesCons(ord: seq<nat>, cs: seq<nat>)
    requires cs != []
    ensures Places(ord, cs) == [Place(ord, cs[0])] + Places(ord, cs[1..])
  {
  }

  lemma LoadNothing(nodes: seq<Node>, names: seq<Option<Bytes>>, ord: seq<nat>, l: Loader)
    requires |nodes| == |names| && ParentOk(l.nodes, l.ctx) && InRange(nodes, ord) && l.aliases == AliasList(names, ord)
    ensures Loads(nodes, names, [], ord, l, Places(ord + Firsts([]), [])) == true
  {
    assert ord + [] == ord && Places(ord, []) == [];
    assert Adopts(l.nodes, l.ctx, []) + Images(nodes, ord, []) == l.nodes;
  }

  /** What the walk over a list has met after its first element, and after all. */
  lemma WalkMeets(nodes: seq<Node>, todo: set<nat>, ord: seq<nat>, cs: seq<nat>)
    requires ValidIds(nodes) && todo <= All(nodes) && InRange(nodes, cs) && cs != []
    requires NoDup(ord) && forall x :: x in ord <==> x in All(nodes) && x !in todo
    ensures var (t, left) := Walk(nodes, todo, cs[0]);
      var t' := WalkAll(nodes, left, cs[1..]).0;
      && Takes(todo, left, Firsts(t)) && NoDup(ord + Firsts(t) + Firsts(t')) && cs[0] in ord + Firsts(t)
      && InRange(nodes, ord + Firsts(t))
  {
    var (t, left) := Walk(nodes, todo, cs[0]);
    var t' := WalkAll(nodes, left, cs[1..]).0;
    WalkFirsts(nodes, todo, cs[0]);
    WalkAllFirsts(nodes, left, cs[1..]);
    assert Id(nodes, cs[0]);
    hide Walk, WalkAll, Firsts;
    NoDupJoin(ord, Firsts(t));
    NoDupJoin(ord + Firsts(t), Firsts(t'));
    var o := ord + Firsts(t);
    assert forall k :: 0 <= k < |o| ==> o[k] in o;
  }

  /** The children of every node met are met. */
  lemma FirstsChildren(nodes: seq<Node>, todo: set<nat>, ord: seq<nat>, i: nat)
    requires ValidIds(nodes) && todo <= All(nodes) && forall x :: x in ord <==> x in All(nodes) && x !in todo
    ensures var f := Firsts(Walk(nodes, todo, i).0);
      InRange(nodes, f) && forall k :: 0 <= k < |f| ==> forall c <- Children(nodes[f[k] - 1]) :: c in ord + f
  {
    var (t, left) := Walk(nodes, todo, i);
    var f := Firsts(t);
    WalkFirsts(nodes, todo, i);
    WalkCloses(nodes, todo, i);
    assert forall k :: 0 <= k < |f| ==> f[k] in f;
    forall k | 0 <= k < |f|
      ensures forall c <- Children(nodes[f[k] - 1]) :: c in ord + f
    {
      ChildrenIn(nodes, f[k]);
    }
  }

  lemma ChildrenIn(nodes: seq<Node>, x: nat)
    requires ValidIds(nodes) && 1 <= x <= |nodes|
    ensures forall c <- Children(nodes[x - 1]) :: c in All(nodes)
  {
    var cs := Children(nodes[x - 1]);
    assert InRange(nodes, cs);
    forall c <- cs
      ensures c in All(nodes)
    {
      var j :| 0 <= j < |cs| && cs[j] == c;
      assert Id(nodes, c);
    }
  }
}
