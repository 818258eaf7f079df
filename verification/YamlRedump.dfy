/** Dumping a loaded document again. */
module YamlRedump {
  import opened ByteOrder
  import opened Options
  import opened YamlGraph
  import opened YamlLoad
  import opened YamlRoundTrip
  import opened YamlDump
  import opened Sequences

  /** `m` is `nodes` seen through the renumbering `ord`. */
  ghost predicate Twins(nodes: seq<Node>, m: seq<Node>, ord: seq<nat>) {
    && ValidIds(nodes) && ValidIds(m) && |m| == |ord| && NoDup(ord) && InRange(nodes, ord)
    && (forall k :: 0 <= k < |ord| ==> Twin(nodes[ord[k] - 1], m[k], ord))
  }

  ghost predicate Twin(a: Node, b: Node, ord: seq<nat>) {
    && (forall c <- Children(a) :: c in ord) && Children(b) == Places(ord, Children(a))
    && (b.ScalarNode? <==> a.ScalarNode?) && (b.MappingNode? <==> a.MappingNode?)
  }

  function Renumber(ord: seq<nat>, v: Visit): Visit {
    match v
    case First(i) => First(Place(ord, i))
    case Again(i) => Again(Place(ord, i))
    case Leave(i) => Leave(Place(ord, i))
  }

  ghost function RenumberAll(ord: seq<nat>, t: seq<Visit>): (r: seq<Visit>)
    ensures |r| == |t|
  {
    seq(|t|, k requires 0 <= k < |t| => Renumber(ord, t[k]))
  }

  lemma RenumberJoin(ord: seq<nat>, s: seq<Visit>, t: seq<Visit>)
    ensures RenumberAll(ord, s + t) == RenumberAll(ord, s) + RenumberAll(ord, t)
  {
    hide Renumber;
  }

  ghost predicate Match(ord: seq<nat>, todo: set<nat>, todo': set<nat>) {
    forall x <- ord :: x in todo <==> Place(ord, x) in todo'
  }

  lemma MatchLess(ord: seq<nat>, todo: set<nat>, todo': set<nat>, i: nat)
    requires Match(ord, todo, todo') && i in ord
    ensures Match(ord, todo - {i}, todo' - {Place(ord, i)}) == true
  {
    forall x <- ord
      ensures x in todo - {i} <==> Place(ord, x) in todo' - {Place(ord, i)}
    {
      if Place(ord, x) == Place(ord, i) {
        assert ord[Place(ord, x) - 1] == x;
      }
    }
  }

  lemma TwinAt(nodes: seq<Node>, m: seq<Node>, ord: seq<nat>, i: nat)
    requires Twins(nodes, m, ord) && i in ord
    ensures 1 <= i <= |nodes| && 1 <= Place(ord, i) <= |m| && ValidIds(nodes) && ValidIds(m)
    ensures var (n, b) := (nodes[i - 1], m[Place(ord, i) - 1]);
      (forall c <- Children(n) :: c in ord) && Children(b) == Places(ord, Children(n)) && (b.ScalarNode? <==> n.ScalarNode?)
  {
    var p := Place(ord, i);
    hide ValidIds, NoDup, Children;
    assert ord[p - 1] == i && Twin(nodes[ord[p - 1] - 1], m[p - 1], ord);
  }

  lemma RenumberWalk(ord: seq<nat>, i: nat, w: seq<Visit>, scalar: bool)
    ensures RenumberAll(ord, [First(i)] + w + (if scalar then [] else [Leave(i)]))
      == [First(Place(ord, i))] + RenumberAll(ord, w) + (if scalar then [] else [Leave(Place(ord, i))])
  {
    var e := if scalar then [] else [Leave(i)];
    RenumberJoin(ord, [First(i)], w);
    RenumberJoin(ord, [First(i)] + w, e);
    assert RenumberAll(ord, [First(i)]) == [First(Place(ord, i))];
    assert RenumberAll(ord, e) == if scalar then [] else [Leave(Place(ord, i))];
  }

  lemma WalkAgain(nodes: seq<Node>, todo: set<nat>, i: nat)
    requires ValidIds(nodes) && todo <= All(nodes) && i !in todo
    ensures Walk(nodes, todo, i) == ([Again(i)], todo)
  {
  }

  lemma MatchAt(ord: seq<nat>, todo: set<nat>, todo': set<nat>, i: nat)
    requires Match(ord, todo, todo') && i in ord
    ensures i in todo <==> Place(ord, i) in todo'
    ensures RenumberAll(ord, [Again(i)]) == [Again(Place(ord, i))]
  {
  }

  /** A walk over the twin is the walk, renumbered. */
  lemma {:induction false} WalkTwin(nodes: seq<Node>, m: seq<Node>, ord: seq<nat>, todo: set<nat>, todo': set<nat>, i: nat)
    requires Twins(nodes, m, ord) == true && ValidIds(nodes) && ValidIds(m)
    requires todo <= All(nodes) && todo' <= All(m) && Match(ord, todo, todo') == true && i in ord
    ensures Walk(m, todo', Place(ord, i)).0 == RenumberAll(ord, Walk(nodes, todo, i).0)
    ensures Match(ord, Walk(nodes, todo, i).1, Walk(m, todo', Place(ord, i)).1) == true
    decreases |todo|, 0
  {
    hide *;
    var p := Place(ord, i);
    MatchAt(ord, todo, todo', i);
    TwinAt(nodes, m, ord, i);
    if i in todo {
      MatchLess(ord, todo, todo', i);
      var w := WalkAll(nodes, todo - {i}, Children(nodes[i - 1])).0;
      WalkAllTwin(nodes, m, ord, todo - {i}, todo' - {p}, Children(nodes[i - 1]));
      WalkShape(nodes, todo, i);
      WalkShape(m, todo', p);
      RenumberWalk(ord, i, w, nodes[i - 1].ScalarNode?);
    } else {
      WalkAgain(nodes, todo, i);
      WalkAgain(m, todo', p);
    }
  }

  lemma {:induction false} WalkAllTwin(nodes: seq<Node>, m: seq<Node>, ord: seq<nat>, todo: set<nat>, todo': set<nat>, cs: seq<nat>)
    requires Twins(nodes, m, ord) == true && ValidIds(nodes) && ValidIds(m)
    requires todo <= All(nodes) && todo' <= All(m) && Match(ord, todo, todo') == true && forall c <- cs :: c in ord
    ensures WalkAll(m, todo', Places(ord, cs)).0 == RenumberAll(ord, WalkAll(nodes, todo, cs).0)
    ensures Match(ord, WalkAll(nodes, todo, cs).1, WalkAll(m, todo', Places(ord, cs)).1) == true
    decreases |todo|, 1 + |cs|
  {
    if cs == [] {
      assert RenumberAll(ord, []) == [];
    } else {
      var (left, left') := (Walk(nodes, todo, cs[0]).1, Walk(m, todo', Place(ord, cs[0])).1);
      Smaller(left, todo);
      WalkTwin(nodes, m, ord, todo, todo', cs[0]);
      PlacesCons(ord, cs);
      assert Places(ord, cs)[1..] == Places(ord, cs[1..]);
      WalkAllTwin(nodes, m, ord, left, left', cs[1..]);
      RenumberJoin(ord, Walk(nodes, todo, cs[0]).0, WalkAll(nodes, left, cs[1..]).0);
    }
  }

  // ---------------------------------------------------------------- names

  ghost predicate Within(ord: seq<nat>, t: seq<Visit>) {
    forall k :: 0 <= k < |t| ==> t[k].id in ord
  }

  /** A walk stays in every set that holds its start and follows children. */
  lemma {:induction false} WalkStays(nodes: seq<Node>, todo: set<nat>, i: nat, ord: seq<nat>)
    requires ValidIds(nodes) && todo <= All(nodes) && Closed(nodes, Elems(ord)) && i in ord
    ensures Within(ord, Walk(nodes, todo, i).0)
    decreases |todo|, 0
  {
    if i in todo {
      assert i in Elems(ord);
      WalkAllStays(nodes, todo - {i}, Children(nodes[i - 1]), ord);
    }
  }

  lemma {:induction false} WalkAllStays(nodes: seq<Node>, todo: set<nat>, cs: seq<nat>, ord: seq<nat>)
    requires ValidIds(nodes) && todo <= All(nodes) && Closed(nodes, Elems(ord)) && forall c <- cs :: c in Elems(ord)
    ensures Within(ord, WalkAll(nodes, todo, cs).0)
    decreases |todo|, 1 + |cs|
  {
    if cs != [] {
      var left := Walk(nodes, todo, cs[0]).1;
      Smaller(left, todo);
      assert cs[0] in cs && cs[0] in Elems(ord);
      WalkStays(nodes, todo, cs[0], ord);
      WalkAllStays(nodes, left, cs[1..], ord);
    }
  }

  ghost predicate SameAnchors(ord: seq<nat>, a: seq<Anchor>, b: seq<Anchor>) {
    |b| == |ord| && forall x <- ord :: 1 <= x <= |a| && b[Place(ord, x) - 1] == a[x - 1]
  }

  lemma {:induction false} ReferTwin(ord: seq<nat>, a: seq<Anchor>, b: seq<Anchor>, last: nat, t: seq<Visit>)
    requires SameAnchors(ord, a, b) && Within(ord, t)
    ensures InSpan(|a|, t) && InSpan(|b|, RenumberAll(ord, t))
    ensures SameAnchors(ord, ReferAll(a, last, t).0, ReferAll(b, last, RenumberAll(ord, t)).0)
    decreases |t|
  {
    var u := RenumberAll(ord, t);
    assert InSpan(|a|, t) && InSpan(|b|, u);
    if t != [] {
      assert u[1..] == RenumberAll(ord, t[1..]) && u[0] == Renumber(ord, t[0]);
      if t[0].Leave? {
        ReferTwin(ord, a, b, last, t[1..]);
      } else {
        var ((a', last'), (b', last'')) := (Refer(a, last, t[0].id), Refer(b, last, u[0].id));
        ReferOneTwin(ord, a, b, last, t[0].id);
        ReferTwin(ord, a', b', last', t[1..]);
      }
    }
  }

  lemma ReferOneTwin(ord: seq<nat>, a: seq<Anchor>, b: seq<Anchor>, last: nat, i: nat)
    requires SameAnchors(ord, a, b) && i in ord
    ensures 1 <= Place(ord, i) <= |b| && Refer(b, last, Place(ord, i)).1 == Refer(a, last, i).1
    ensures SameAnchors(ord, Refer(a, last, i).0, Refer(b, last, Place(ord, i)).0)
  {
    forall x <- ord
      ensures Refer(b, last, Place(ord, i)).0[Place(ord, x) - 1] == Refer(a, last, i).0[x - 1]
    {
      assert x != i ==> Place(ord, x) != Place(ord, i);
    }
  }

  // ---------------------------------------------------------------- events

  lemma {:induction false} EventsAt(nodes: seq<Node>, names: seq<Option<Bytes>>, t: seq<Visit>)
    requires |nodes| == |names| && InNodes(nodes, t)
    ensures |EventsOf(nodes, names, t)| == |t|
    ensures forall k :: 0 <= k < |t| ==> EventsOf(nodes, names, t)[k] == VisitEvent(nodes, names, t[k])
  {
    if t != [] {
      EventsAt(nodes, names, t[1..]);
    }
  }

  lemma LoadedTwin(nodes: seq<Node>, k: nat)
    requires nodes != [] && ValidIds(nodes) && k < |FirstOrder(nodes)|
    ensures var (ord, x) := (FirstOrder(nodes), FirstOrder(nodes)[k]);
      1 <= x <= |nodes| && |Loaded(nodes)| == |ord| && Twin(nodes[x - 1], Loaded(nodes)[k], ord) == true
      && InRange(Loaded(nodes), Children(Loaded(nodes)[k])) == true
  {
    hide FirstOrder, Loaded, Children, SameNode, ValidIds, NonSpecific;
    LoadedSame(nodes, k);
    OrderClosed(nodes, k);
    var (ord, x) := (FirstOrder(nodes), FirstOrder(nodes)[k]);
    var cs := Children(nodes[x - 1]);
    forall j | 0 <= j < |cs|
      ensures 1 <= Place(ord, cs[j]) <= |ord|
    {
      assert cs[j] in ord;
    }
  }

  /** The loaded document is the twin of the reachable part. */
  lemma LoadedTwins(nodes: seq<Node>)
    requires nodes != [] && ValidIds(nodes)
    ensures Loaded(nodes) != [] && ValidIds(Loaded(nodes)) == true && Twins(nodes, Loaded(nodes), FirstOrder(nodes)) == true
  {
    hide *;
    var m, ord := Loaded(nodes), FirstOrder(nodes);
    FirstOrderReaches(nodes, {});
    OrderInRange(nodes);
    LoadedTwin(nodes, 0);
    forall k | 0 <= k < |ord|
      ensures 1 <= ord[k] <= |nodes| && Twin(nodes[ord[k] - 1], m[k], ord) == true && InRange(m, Children(m[k])) == true
    {
      LoadedTwin(nodes, k);
    }
    TwinsFrom(nodes, m, ord);
  }

  lemma TwinsFrom(nodes: seq<Node>, m: seq<Node>, ord: seq<nat>)
    requires ValidIds(nodes) && |m| == |ord| && NoDup(ord) && InRange(nodes, ord)
    requires forall k :: 0 <= k < |ord| ==> 1 <= ord[k] <= |nodes| && Twin(nodes[ord[k] - 1], m[k], ord) && InRange(m, Children(m[k]))
    ensures ValidIds(m) == true && Twins(nodes, m, ord) == true
  {
    hide Twin, Children, NoDup;
  }

  lemma RootPlace(nodes: seq<Node>)
    requires nodes != [] && ValidIds(nodes)
    ensures 1 in FirstOrder(nodes) && Place(FirstOrder(nodes), 1) == 1 && Closed(nodes, Elems(FirstOrder(nodes))) == true
  {
    FirstOrderReaches(nodes, {});
    var ord := FirstOrder(nodes);
    assert ord[0] == 1 && ord[Place(ord, 1) - 1] == 1;
  }

  lemma AllMatch(nodes: seq<Node>, m: seq<Node>, ord: seq<nat>)
    requires Twins(nodes, m, ord)
    ensures Match(ord, All(nodes), All(m)) == true
    ensures forall x <- ord :: 1 <= x <= |nodes| && 1 <= Place(ord, x) <= |m|
  {
    forall x <- ord
      ensures 1 <= x <= |nodes| && 1 <= Place(ord, x) <= |m| && x in All(nodes) && Place(ord, x) in All(m)
    {
      TwinAt(nodes, m, ord, x);
      assert Id(nodes, x) && Id(m, Place(ord, x));
    }
  }

  /** It is walked in the same way. */
  lemma LoadedTrace(nodes: seq<Node>)
    requires nodes != [] && ValidIds(nodes)
    ensures var (m, ord) := (Loaded(nodes), FirstOrder(nodes));
      m != [] && ValidIds(m) == true && Trace(m) == RenumberAll(ord, Trace(nodes)) && Within(ord, Trace(nodes)) == true
  {
    var (m, ord) := (Loaded(nodes), FirstOrder(nodes));
    LoadedTwins(nodes);
    RootPlace(nodes);
    AllMatch(nodes, m, ord);
    TraceIs(nodes);
    TraceIs(m);
    hide *;
    WalkTwin(nodes, m, ord, All(nodes), All(m), 1);
    WalkStays(nodes, All(nodes), 1, ord);
  }

  /** Its nodes have the same names. */
  lemma LoadedName(nodes: seq<Node>, x: nat)
    requires nodes != [] && ValidIds(nodes) == true && x in FirstOrder(nodes)
    ensures var (m, ord) := (Loaded(nodes), FirstOrder(nodes));
      m != [] && ValidIds(m) == true && 1 <= x <= |nodes| && 1 <= Place(ord, x) <= |m|
      && Names(m)[Place(ord, x) - 1] == Names(nodes)[x - 1]
  {
    hide *;
    var (m, ord) := (Loaded(nodes), FirstOrder(nodes));
    LoadedTwins(nodes);
    AllMatch(nodes, m, ord);
    LoadedTrace(nodes);
    PlaceAt(ord, x);
    LoadedAt(nodes, Place(ord, x) - 1);
    NamesAgree(nodes, m, ord);
  }

  lemma NamesAgree(nodes: seq<Node>, m: seq<Node>, ord: seq<nat>)
    requires nodes != [] && ValidIds(nodes) == true && m != [] && ValidIds(m) == true && |m| == |ord|
    requires forall x <- ord :: 1 <= x <= |nodes| && 1 <= Place(ord, x) <= |m|
    requires Trace(m) == RenumberAll(ord, Trace(nodes)) && Within(ord, Trace(nodes)) == true
    ensures forall x <- ord :: Names(m)[Place(ord, x) - 1] == Names(nodes)[x - 1]
  {
    hide *;
    var (a, b, t) := (Zeros(|nodes|), Zeros(|m|), Trace(nodes));
    NamesIs(nodes);
    NamesIs(m);
    ZerosTwin(ord, |nodes|, |m|);
    ReferTwin(ord, a, b, 0, t);
    NamesTwin(ord, ReferAll(a, 0, t).0, ReferAll(b, 0, RenumberAll(ord, t)).0);
  }

  lemma NamesIs(nodes: seq<Node>)
    requires nodes != [] && ValidIds(nodes)
    ensures |Zeros(|nodes|)| == |nodes| && Names(nodes) == NamesOf(ReferAll(Zeros(|nodes|), 0, Trace(nodes)).0)
  {
  }

  lemma ZerosTwin(ord: seq<nat>, n: nat, k: nat)
    requires k == |ord| && forall x <- ord :: 1 <= x <= n
    ensures SameAnchors(ord, Zeros(n), Zeros(k)) == true && |Zeros(n)| == n && |Zeros(k)| == k
  {
  }

  lemma NamesTwin(ord: seq<nat>, a: seq<Anchor>, b: seq<Anchor>)
    requires SameAnchors(ord, a, b)
    ensures forall x <- ord :: 1 <= x <= |a| && 1 <= Place(ord, x) <= |b| && NamesOf(b)[Place(ord, x) - 1] == NamesOf(a)[x - 1]
  {
    hide NameOf;
  }

  // ---------------------------------------------------------------- the events again

  /** The event of a visit, in the document and in its twin. */
  lemma VisitTwin(nodes: seq<Node>, names: seq<Option<Bytes>>, m: seq<Node>, names': seq<Option<Bytes>>, ord: seq<nat>, v: Visit)
    requires |names| == |nodes| && |names'| == |m| == |ord| && v.id in ord && 1 <= v.id <= |nodes|
    requires names'[Place(ord, v.id) - 1] == names[v.id - 1]
    requires var (a, b) := (nodes[v.id - 1], m[Place(ord, v.id) - 1]);
      (SameNode(a, b, ord) <==> !NonSpecific(a)) && b == Image(ord, a) && (b.MappingNode? <==> a.MappingNode?)
    ensures VisitEvent(m, names', Renumber(ord, v)) == VisitEvent(nodes, names, v) <==> !v.First? || !NonSpecific(nodes[v.id - 1])
  {
    hide Image;
    var (a, b) := (nodes[v.id - 1], m[Place(ord, v.id) - 1]);
    if v.First? && NonSpecific(a) {
      ImageTag(ord, a);
    }
  }

  /** A loaded node never has the tag "!". */
  lemma ImageTag(ord: seq<nat>, n: Node)
    ensures Image(ord, n).tag != [33]
  {
    AddAllTag(Bare(n), Places(ord, Children(n)));
  }

  lemma {:induction false} AddAllTag(n: Node, ids: seq<nat>)
    ensures AddAll(n, ids).tag == n.tag
  {
    if ids != [] {
      AddAllTag(n, ids[..|ids| - 1]);
    }
  }

  /** The events of the loaded document at one point of the walk. */
  lemma EventTwin(nodes: seq<Node>, k: nat)
    requires nodes != [] && ValidIds(nodes) && k < |Trace(nodes)|
    ensures var (m, ord, v) := (Loaded(nodes), FirstOrder(nodes), Trace(nodes)[k]);
      m != [] && ValidIds(m) == true && v.id in ord && 1 <= v.id <= |nodes| && 1 <= Place(ord, v.id) <= |m|
      && Renumber(ord, v).id == Place(ord, v.id)
      && (VisitEvent(m, Names(m), Renumber(ord, v)) == VisitEvent(nodes, Names(nodes), v)
          <==> !v.First? || !NonSpecific(nodes[v.id - 1]))
  {
    hide *;
    var (m, ord, v) := (Loaded(nodes), FirstOrder(nodes), Trace(nodes)[k]);
    LoadedTrace(nodes);
    WithinAt(ord, Trace(nodes), k);
    LoadedName(nodes, v.id);
    PlaceAt(ord, v.id);
    LoadedSame(nodes, Place(ord, v.id) - 1);
    LoadedAt(nodes, Place(ord, v.id) - 1);
    RenumberId(ord, v);
    VisitTwin(nodes, Names(nodes), m, Names(m), ord, v);
  }

  lemma WithinAt(ord: seq<nat>, t: seq<Visit>, k: nat)
    requires Within(ord, t) && k < |t|
    ensures t[k].id in ord
  {
  }

  lemma PlaceAt(ord: seq<nat>, i: nat)
    requires i in ord
    ensures 1 <= Place(ord, i) <= |ord| && ord[Place(ord, i) - 1] == i
  {
  }

  lemma RenumberId(ord: seq<nat>, v: Visit)
    ensures Renumber(ord, v).id == Place(ord, v.id)
  {
  }

  /** Two event lists agree when they agree everywhere. */
  lemma SameEvents(nodes: seq<Node>, names: seq<Option<Bytes>>, t: seq<Visit>, m: seq<Node>, names': seq<Option<Bytes>>, u: seq<Visit>)
    requires |nodes| == |names| && InNodes(nodes, t) && |m| == |names'| && InNodes(m, u) && |u| == |t|
    ensures EventsOf(m, names', u) == EventsOf(nodes, names, t)
      <==> forall k :: 0 <= k < |t| ==> VisitEvent(m, names', u[k]) == VisitEvent(nodes, names, t[k])
  {
    EventsAt(nodes, names, t);
    EventsAt(m, names', u);
    hide VisitEvent;
    var (x, y) := (EventsOf(m, names', u), EventsOf(nodes, names, t));
    if forall k :: 0 <= k < |t| ==> VisitEvent(m, names', u[k]) == VisitEvent(nodes, names, t[k]) {
      assert forall k :: 0 <= k < |x| ==> x[k] == y[k];
    } else {
      var k :| 0 <= k < |t| && VisitEvent(m, names', u[k]) != VisitEvent(nodes, names, t[k]);
      assert x[k] != y[k];
    }
  }

  lemma {:induction false} FirstsIn(t: seq<Visit>, i: nat)
    requires i in Firsts(t)
    ensures exists k :: 0 <= k < |t| && t[k] == First(i)
  {
    FirstIn(t, i);
  }

  /** The two walks give the same events exactly when no reachable node has the tag "!". */
  lemma VisitsSame(nodes: seq<Node>)
    requires nodes != [] && ValidIds(nodes)
    ensures var m := Loaded(nodes);
      m != [] && ValidIds(m) == true && |Trace(m)| == |Trace(nodes)| && (forall i <- FirstOrder(nodes) :: 1 <= i <= |nodes|)
      && ((forall k :: 0 <= k < |Trace(nodes)| ==>
             VisitEvent(m, Names(m), Trace(m)[k]) == VisitEvent(nodes, Names(nodes), Trace(nodes)[k]))
          <==> forall i <- FirstOrder(nodes) :: !NonSpecific(nodes[i - 1]))
  {
    hide *;
    var (m, ord, t) := (Loaded(nodes), FirstOrder(nodes), Trace(nodes));
    LoadedTrace(nodes);
    OrderIds(nodes);
    TraceIds(nodes);
    TraceIds(m);
    forall k | 0 <= k < |t|
      ensures t[k].id in ord && (VisitEvent(m, Names(m), Trace(m)[k]) == VisitEvent(nodes, Names(nodes), t[k])
        <==> !t[k].First? || !NonSpecific(nodes[t[k].id - 1]))
    {
      EventTwin(nodes, k);
      RenumberAt(ord, t, k);
    }
    if exists i :: i in ord && NonSpecific(nodes[i - 1]) {
      var i :| i in ord && NonSpecific(nodes[i - 1]);
      TraceIs(nodes);
      FirstsIn(t, i);
      var k :| 0 <= k < |t| && t[k] == First(i);
      assert VisitEvent(m, Names(m), Trace(m)[k]) != VisitEvent(nodes, Names(nodes), t[k]);
    }
  }

  /** Dumping the loaded document gives the same events exactly when no reachable node has the tag "!". */
  lemma RedumpSame(d: Document)
    requires ValidDocument(d)
    ensures var r := Load(Dump(d));
      r.Some? && ValidDocument(r.value) && (forall i <- FirstOrder(d.nodes) :: 1 <= i <= |d.nodes|)
      && (Dump(r.value) == Dump(d) <==> forall i <- FirstOrder(d.nodes) :: !NonSpecific(d.nodes[i - 1]))
  {
    LoadDumped(d);
    VisitsSame(d.nodes);
    var r := Load(Dump(d)).value;
    hide Load, Dump, Trace, Names, Loaded, FirstOrder, VisitEvent, ValidIds, NonSpecific;
    DumpSame(d, r);
  }

  lemma TraceIds(nodes: seq<Node>)
    requires nodes != [] && ValidIds(nodes)
    ensures forall k :: 0 <= k < |Trace(nodes)| ==> 1 <= Trace(nodes)[k].id <= |nodes|
  {
  }

  lemma OrderIds(nodes: seq<Node>)
    requires nodes != [] && ValidIds(nodes)
    ensures forall i <- FirstOrder(nodes) :: 1 <= i <= |nodes|
  {
    FirstOrderReaches(nodes, {});
    assert forall i <- FirstOrder(nodes) :: i in Elems(FirstOrder(nodes));
  }

  lemma RenumberAt(ord: seq<nat>, t: seq<Visit>, k: nat)
    requires k < |t|
    ensures RenumberAll(ord, t)[k] == Renumber(ord, t[k])
  {
  }

  /** The dumps differ where the events of the walks do. */
  lemma DumpSame(d: Document, r: Document)
    requires ValidDocument(d) && ValidDocument(r) && r.startImplicit == d.startImplicit && r.endImplicit == d.endImplicit
    requires |Trace(r.nodes)| == |Trace(d.nodes)|
    ensures Dump(r) == Dump(d) <==>
      forall k :: 0 <= k < |Trace(d.nodes)| ==>
        VisitEvent(r.nodes, Names(r.nodes), Trace(r.nodes)[k]) == VisitEvent(d.nodes, Names(d.nodes), Trace(d.nodes)[k])
  {
    SameEvents(d.nodes, Names(d.nodes), Trace(d.nodes), r.nodes, Names(r.nodes), Trace(r.nodes));
    hide VisitEvent, Names, Trace, EventsOf;
    var (x, y) := (EventsOf(r.nodes, Names(r.nodes), Trace(r.nodes)), EventsOf(d.nodes, Names(d.nodes), Trace(d.nodes)));
    assert Dump(r)[1..|Dump(r)| - 1] == x && Dump(d)[1..|Dump(d)| - 1] == y;
  }
}
