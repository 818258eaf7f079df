/** The emitter accepts everything the dumper writes. */
module YamlAccepted {
  import opened ByteOrder
  import opened Options
  import opened YamlGraph
  import opened YamlRoundTrip
  import opened YamlDump
  import L = YamlLoad
  import E = YamlEmitter
  import opened YamlEmitQueue

  function KindOf(e: L.Event): E.Kind {
    match e
    case AliasEvent(_) => E.Alias
    case ScalarEvent(_, _, _, _) => E.Scalar
    case SequenceStart(_, _, _) => E.SequenceStart
    case SequenceEnd => E.SequenceEnd
    case MappingStart(_, _, _) => E.MappingStart
    case MappingEnd => E.MappingEnd
    case DocumentStart(_) => E.DocumentStart
    case DocumentEnd(_) => E.DocumentEnd
  }

  function KindsOf(es: seq<L.Event>): (r: seq<E.Kind>)
    ensures |r| == |es|
  {
    seq(|es|, k requires 0 <= k < |es| => KindOf(es[k]))
  }

  lemma KindsOfJoin(a: seq<L.Event>, b: seq<L.Event>)
    ensures KindsOf(a + b) == KindsOf(a) + KindsOf(b)
  {
  }

  /** The events of a walk are those of one node of the grammar. */
  lemma {:induction false} WalkTree(nodes: seq<Node>, names: seq<Option<Bytes>>, todo: set<nat>, i: nat) returns (t: E.Tree)
    requires ValidIds(nodes) && todo <= All(nodes) && 1 <= i <= |nodes| == |names|
    ensures var w := Walk(nodes, todo, i).0;
      E.Paired(t) && InNodes(nodes, w) && KindsOf(EventsOf(nodes, names, w)) == E.Yield(t)
    decreases |todo|, 0
  {
    if i !in todo {
      t := E.AliasTree;
      VisitKind(nodes, names, Again(i));
    } else {
      var n := nodes[i - 1];
      WalkShape(nodes, todo, i);
      var u := WalkAll(nodes, todo - {i}, Children(n)).0;
      if n.ScalarNode? {
        t := E.ScalarTree;
        assert [First(i)] + u + [] == [First(i)];
        VisitKind(nodes, names, First(i));
      } else {
        assert InRange(nodes, Children(n));
        var f := WalkForest(nodes, names, todo - {i}, Children(n));
        t := if n.MappingNode? then E.MappingTree(f) else E.SequenceTree(f);
        CollectionKinds(nodes, names, i, u, f);
      }
    }
  }

  lemma VisitKind(nodes: seq<Node>, names: seq<Option<Bytes>>, v: Visit)
    requires 1 <= v.id <= |nodes| == |names|
    ensures InNodes(nodes, [v]) && KindsOf(EventsOf(nodes, names, [v])) == [KindOf(VisitEvent(nodes, names, v))]
  {
    assert [v][1..] == [];
  }

  lemma CollectionKinds(nodes: seq<Node>, names: seq<Option<Bytes>>, i: nat, u: seq<Visit>, f: E.Forest)
    requires 1 <= i <= |nodes| == |names| && !nodes[i - 1].ScalarNode? && InNodes(nodes, u)
    requires KindsOf(EventsOf(nodes, names, u)) == E.Yields(f)
    ensures InNodes(nodes, [First(i)] + u + [Leave(i)])
    ensures KindsOf(EventsOf(nodes, names, [First(i)] + u + [Leave(i)]))
      == E.Yield(if nodes[i - 1].MappingNode? then E.MappingTree(f) else E.SequenceTree(f))
  {
    EventsParts(nodes, names, i, u);
    EnclosingKinds(nodes, names, i, f);
    var (a, es, b) := (NodeEvent(nodes[i - 1], names[i - 1]), EventsOf(nodes, names, u), VisitEvent(nodes, names, Leave(i)));
    hide *;
    BracketKinds(a, es, b);
  }

  lemma EnclosingKinds(nodes: seq<Node>, names: seq<Option<Bytes>>, i: nat, f: E.Forest)
    requires 1 <= i <= |nodes| == |names| && !nodes[i - 1].ScalarNode?
    ensures [KindOf(NodeEvent(nodes[i - 1], names[i - 1]))] + E.Yields(f) + [KindOf(VisitEvent(nodes, names, Leave(i)))]
      == E.Yield(if nodes[i - 1].MappingNode? then E.MappingTree(f) else E.SequenceTree(f))
  {
  }

  lemma BracketKinds(a: L.Event, es: seq<L.Event>, b: L.Event)
    ensures KindsOf([a] + es + [b]) == [KindOf(a)] + KindsOf(es) + [KindOf(b)]
  {
  }

  lemma {:induction false} WalkForest(nodes: seq<Node>, names: seq<Option<Bytes>>, todo: set<nat>, cs: seq<nat>) returns (f: E.Forest)
    requires ValidIds(nodes) && todo <= All(nodes) && InRange(nodes, cs) && |nodes| == |names|
    ensures var w := WalkAll(nodes, todo, cs).0;
      E.AllPaired(f) && E.Size(f) == |cs| && InNodes(nodes, w) && KindsOf(EventsOf(nodes, names, w)) == E.Yields(f)
    decreases |todo|, 1 + |cs|
  {
    WalkAllInNodes(nodes, todo, cs);
    if cs == [] {
      f := E.Nil;
    } else {
      var (s, left) := Walk(nodes, todo, cs[0]);
      Smaller(left, todo);
      var t := WalkTree(nodes, names, todo, cs[0]);
      var tail := WalkForest(nodes, names, left, cs[1..]);
      f := E.Cons(t, tail);
      EventsJoin(nodes, names, s, WalkAll(nodes, left, cs[1..]).0);
      KindsOfJoin(EventsOf(nodes, names, s), EventsOf(nodes, names, WalkAll(nodes, left, cs[1..]).0));
    }
  }

  /** The events given to the emitter for a list of documents: their kinds are those of the dumps, between the stream events. */
  ghost predicate Dumped(es: seq<E.Event>, ds: seq<Document>) {
    (forall k :: 0 <= k < |ds| ==> ValidDocument(ds[k]))
    && E.Kinds(es) == [E.StreamStart] + DumpKinds(ds) + [E.StreamEnd]
  }

  ghost function DumpKinds(ds: seq<Document>): seq<E.Kind>
    requires forall k :: 0 <= k < |ds| ==> ValidDocument(ds[k])
  {
    if ds == [] then [] else KindsOf(Dump(ds[0])) + DumpKinds(ds[1..])
  }

  lemma DumpIs(d: Document)
    requires ValidDocument(d)
    ensures d.nodes != [] && ValidIds(d.nodes)
    ensures Dump(d) == [L.DocumentStart(d.startImplicit)] + EventsOf(d.nodes, Names(d.nodes), Trace(d.nodes)) + [L.DocumentEnd(d.endImplicit)]
    ensures KindOf(L.DocumentStart(d.startImplicit)) == E.DocumentStart && KindOf(L.DocumentEnd(d.endImplicit)) == E.DocumentEnd
  {
  }

  lemma DumpTree(d: Document) returns (t: E.Tree)
    requires ValidDocument(d)
    ensures E.Paired(t) && KindsOf(Dump(d)) == [E.DocumentStart] + E.Yield(t) + [E.DocumentEnd]
  {
    t := WalkTree(d.nodes, Names(d.nodes), All(d.nodes), 1);
    TraceIs(d.nodes);
    DumpIs(d);
    hide *;
    BracketKinds(L.DocumentStart(d.startImplicit), EventsOf(d.nodes, Names(d.nodes), Trace(d.nodes)), L.DocumentEnd(d.endImplicit));
  }

  lemma {:induction false} DumpForest(ds: seq<Document>) returns (docs: E.Forest)
    requires forall k :: 0 <= k < |ds| ==> ValidDocument(ds[k])
    ensures E.AllPaired(docs) && DumpKinds(ds) == E.YieldDocuments(docs)
    decreases |ds|
  {
    if ds == [] {
      docs := E.Nil;
    } else {
      var t := DumpTree(ds[0]);
      var tail := DumpForest(ds[1..]);
      docs := E.Cons(t, tail);
    }
  }

  /** Whatever the styles, keys and columns, the emitter takes every dumped stream to its end and holds nothing back. */
  lemma DumpsAccepted(m: E.Machine, es: seq<E.Event>, ds: seq<Document>)
    requires E.Initial(m) && Dumped(es, ds)
    ensures Feed(m, [], es).Some? && Feed(m, [], es).value.0.state.EndState? && Feed(m, [], es).value.1 == []
  {
    var docs := DumpForest(ds);
    assert E.Stream(es, docs);
    EmitterAccepts(m, es);
  }
}
