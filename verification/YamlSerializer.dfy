/** The dumper as the source runs it: two recursive passes over the anchors array. */
module YamlSerializer {
  import opened ByteOrder
  import opened Options
  import opened YamlGraph
  import opened YamlLoad
  import opened YamlRoundTrip
  import opened YamlDump
  import opened Sequences

  ghost predicate Fresh(a: seq<Anchor>, i: nat) {
    1 <= i <= |a| && a[i - 1].references == 0
  }

  ghost predicate Pending(a: seq<Anchor>, i: nat) {
    1 <= i <= |a| && !a[i - 1].serialized
  }

  /** The nodes the first pass has not met. */
  ghost function Unreferenced(a: seq<Anchor>): set<nat> {
    set i | 1 <= i <= |a| && Fresh(a, i)
  }

  /** The nodes the second pass has not met. */
  ghost function Unserialized(a: seq<Anchor>): set<nat> {
    set i | 1 <= i <= |a| && Pending(a, i)
  }

  // ---------------------------------------------------------------- walks, one child at a time

  lemma {:induction false} WalkAllSnoc(nodes: seq<Node>, todo: set<nat>, cs: seq<nat>, c: nat)
    requires ValidIds(nodes) && todo <= All(nodes)
    ensures var (t, left) := WalkAll(nodes, todo, cs);
      WalkAll(nodes, todo, cs + [c]) == (t + Walk(nodes, left, c).0, Walk(nodes, left, c).1)
    decreases |todo|, |cs|
  {
    if cs == [] {
      assert ([] + [c])[1..] == [];
      assert Walk(nodes, todo, c).0 + [] == Walk(nodes, todo, c).0 && [] + Walk(nodes, todo, c).0 == Walk(nodes, todo, c).0;
    } else {
      var (t, left) := Walk(nodes, todo, cs[0]);
      Smaller(left, todo);
      assert (cs + [c])[0] == cs[0] && (cs + [c])[1..] == cs[1..] + [c];
      WalkAllSnoc(nodes, left, cs[1..], c);
      var (u, left') := WalkAll(nodes, left, cs[1..]);
      Assoc(t, u, Walk(nodes, left', c).0);
    }
  }

  /** The first pass over the children `cs`, from the state (b, next) to (a, last). */
  ghost predicate Counted(nodes: seq<Node>, todo: set<nat>, b: seq<Anchor>, next: nat, cs: seq<nat>, a: seq<Anchor>, last: nat) {
    && ValidIds(nodes) && todo <= All(nodes) && |b| == |nodes|
    && var (t, left) := WalkAll(nodes, todo, cs);
       InSpan(|b|, t) && (a, last) == ReferAll(b, next, t) && Unreferenced(a) == left
  }

  lemma CountedNone(nodes: seq<Node>, todo: set<nat>, b: seq<Anchor>, next: nat)
    requires ValidIds(nodes) && todo <= All(nodes) && |b| == |nodes| && Unreferenced(b) == todo
    ensures Counted(nodes, todo, b, next, [], b, next) == true
  {
  }

  lemma CountedStep(nodes: seq<Node>, todo: set<nat>, b: seq<Anchor>, next: nat, cs: seq<nat>, a: seq<Anchor>, last: nat,
                    c: nat, a': seq<Anchor>, last': nat)
    requires Counted(nodes, todo, b, next, cs, a, last) && 1 <= c <= |nodes|
    requires |a| == |nodes| && Unreferenced(a) <= All(nodes)
    requires var (t, left) := Walk(nodes, Unreferenced(a), c);
      InSpan(|a|, t) && (a', last') == ReferAll(a, last, t) && Unreferenced(a') == left
    ensures Counted(nodes, todo, b, next, cs + [c], a', last') == true
  {
    WalkAllSnoc(nodes, todo, cs, c);
    ReferJoin(b, next, WalkAll(nodes, todo, cs).0, Walk(nodes, Unreferenced(a), c).0);
  }

  lemma UnreferencedIn(nodes: seq<Node>, a: seq<Anchor>)
    requires |a| == |nodes|
    ensures Unreferenced(a) <= All(nodes) && Unserialized(a) <= All(nodes)
  {
    assert forall i :: 1 <= i <= |nodes| ==> Id(nodes, i);
  }

  /** The first reference. */
  lemma MarkFirst(a: seq<Anchor>, last: nat, i: nat)
    requires 1 <= i <= |a|
    ensures i in Unreferenced(a) ==> Unreferenced(Refer(a, last, i).0) == Unreferenced(a) - {i}
    ensures i !in Unreferenced(a) ==> Unreferenced(Refer(a, last, i).0) == Unreferenced(a)
    ensures i in Unreferenced(a) <==> a[i - 1].references == 0
  {
    var b := Refer(a, last, i).0;
    assert forall k :: 1 <= k <= |a| ==> (Fresh(b, k) <==> Fresh(a, k) && k != i);
    assert i in Unreferenced(a) <==> Fresh(a, i);
  }

  lemma WalkShapes(nodes: seq<Node>, todo: set<nat>, i: nat)
    requires ValidIds(nodes) && todo <= All(nodes) && i in todo
    ensures 1 <= i <= |nodes| && todo - {i} <= All(nodes)
    ensures var (w, e) := (WalkAll(nodes, todo - {i}, Children(nodes[i - 1])), if nodes[i - 1].ScalarNode? then [] else [Leave(i)]);
      Walk(nodes, todo, i) == ([First(i)] + w.0 + e, w.1) && InSpan(|nodes|, [First(i)]) && InSpan(|nodes|, w.0) && InSpan(|nodes|, e)
  {
    WalkShape(nodes, todo, i);
    assert InRange(nodes, Children(nodes[i - 1]));
    WalkAllInNodes(nodes, todo - {i}, Children(nodes[i - 1]));
  }

  /** The first pass over a node met for the first time. */
  lemma CountedNode(nodes: seq<Node>, todo: set<nat>, i: nat, a: seq<Anchor>, last: nat, a': seq<Anchor>, last': nat)
    requires ValidIds(nodes) && todo <= All(nodes) && i in todo && |a| == |nodes| && 1 <= i <= |nodes|
    requires Counted(nodes, todo - {i}, Refer(a, last, i).0, Refer(a, last, i).1, Children(nodes[i - 1]), a', last')
    ensures var (t, left) := Walk(nodes, todo, i);
      InSpan(|nodes|, t) && (a', last') == ReferAll(a, last, t) && Unreferenced(a') == left
  {
    WalkShapes(nodes, todo, i);
    var w := WalkAll(nodes, todo - {i}, Children(nodes[i - 1])).0;
    var e := if nodes[i - 1].ScalarNode? then [] else [Leave(i)];
    hide Walk, WalkAll, Refer, Unreferenced, All;
    ReferJoin(a, last, [First(i)], w);
    ReferJoin(a, last, [First(i)] + w, e);
    assert [First(i)][1..] == [] && [Leave(i)][1..] == [];
  }

  /** A further reference. */
  lemma CountedAgain(nodes: seq<Node>, todo: set<nat>, i: nat, a: seq<Anchor>, last: nat)
    requires ValidIds(nodes) && todo == Unreferenced(a) && todo <= All(nodes) && i !in todo && |a| == |nodes| && 1 <= i <= |nodes|
    ensures var (t, left) := Walk(nodes, todo, i);
      InSpan(|nodes|, t) && Refer(a, last, i) == ReferAll(a, last, t) && Unreferenced(Refer(a, last, i).0) == left
  {
    MarkFirst(a, last, i);
    assert [Again(i)][1..] == [];
  }

  class Emitter {
    const nodes: seq<Node>
    const anchors: array<Anchor>
    var lastAnchorId: nat
    var output: seq<Event>

    ghost predicate Valid()
      reads this
    {
      ValidIds(nodes) && anchors.Length == |nodes|
    }

    constructor (nodes: seq<Node>)
      requires ValidIds(nodes)
      ensures Valid() && this.nodes == nodes && lastAnchorId == 0 && output == [] && anchors[..] == Zeros(|nodes|)
      ensures fresh(anchors)
    {
      this.nodes := nodes;
      anchors := new Anchor[|nodes|](_ => Anchor(0, 0, false));
      lastAnchorId, output := 0, [];
    }

    /** `anchor_node`: count references, and number a node at its second one. */
    method AnchorNode(index: nat, ghost todo: set<nat>)
      requires Valid() && 1 <= index <= |nodes| && todo == Unreferenced(anchors[..]) && todo <= All(nodes)
      modifies anchors, this`lastAnchorId
      ensures InSpan(|nodes|, Walk(nodes, todo, index).0)
      ensures (anchors[..], lastAnchorId) == ReferAll(old(anchors[..]), old(lastAnchorId), Walk(nodes, todo, index).0)
      ensures Unreferenced(anchors[..]) == Walk(nodes, todo, index).1
      decreases |todo|, 0
    {
      ghost var (a, last) := (anchors[..], lastAnchorId);
      MarkFirst(a, last, index);
      var e := anchors[index - 1];
      if e.references + 1 == 1 {
        anchors[index - 1] := e.(references := 1);
        assert anchors[..] == Refer(a, last, index).0;
        AnchorChildren(index, todo - {index});
        CountedNode(nodes, todo, index, a, last, anchors[..], lastAnchorId);
      } else {
        CountedAgain(nodes, todo, index, a, last);
        if e.references + 1 == 2 {
          lastAnchorId := lastAnchorId + 1;
          anchors[index - 1] := e.(references := 2, anchor := lastAnchorId);
        } else {
          anchors[index - 1] := e.(references := e.references + 1);
        }
        assert anchors[..] == Refer(a, last, index).0;
      }
    }

    /** The loops over the items of a sequence and the pairs of a mapping. */
    method AnchorChildren(index: nat, ghost todo: set<nat>)
      requires Valid() && 1 <= index <= |nodes| && todo == Unreferenced(anchors[..]) && todo <= All(nodes)
      modifies anchors, this`lastAnchorId
      ensures Counted(nodes, todo, old(anchors[..]), old(lastAnchorId), Children(nodes[index - 1]), anchors[..], lastAnchorId) == true
      decreases |todo|, 2
    {
      ghost var (b, next) := (anchors[..], lastAnchorId);
      assert InRange(nodes, Children(nodes[index - 1]));
      CountedNone(nodes, todo, b, next);
      match nodes[index - 1]
      case ScalarNode(_, _, _) =>
      case SequenceNode(_, _, items) =>
        for k := 0 to |items|
          invariant Counted(nodes, todo, b, next, items[..k], anchors[..], lastAnchorId) == true
        {
          assert items[..k + 1] == items[..k] + [items[k]];
          AnchorChild(items[k], todo, b, next, items[..k]);
        }
        assert items[..|items|] == items;
      case MappingNode(_, _, pairs) =>
        for k := 0 to |pairs|
          invariant Counted(nodes, todo, b, next, Flat(pairs[..k]), anchors[..], lastAnchorId) == true
        {
          FlatAt(pairs, k);
          AnchorChild(pairs[k].0, todo, b, next, Flat(pairs[..k]));
          AnchorChild(pairs[k].1, todo, b, next, Flat(pairs[..k]) + [pairs[k].0]);
        }
        assert pairs[..|pairs|] == pairs;
    }

    method AnchorChild(c: nat, ghost todo: set<nat>, ghost b: seq<Anchor>, ghost next: nat, ghost cs: seq<nat>)
      requires Valid() && 1 <= c <= |nodes|
      requires Counted(nodes, todo, b, next, cs, anchors[..], lastAnchorId) == true
      modifies anchors, this`lastAnchorId
      ensures Counted(nodes, todo, b, next, cs + [c], anchors[..], lastAnchorId) == true
      decreases |todo|, 1
    {
      ghost var (a, last) := (anchors[..], lastAnchorId);
      UnreferencedIn(nodes, a);
      CountedLess(nodes, todo, b, next, cs, a, last);
      hide *;
      AnchorNode(c, Unreferenced(a));
      CountedStep(nodes, todo, b, next, cs, a, last, c, anchors[..], lastAnchorId);
    }

    /** `dump_node`: an alias for a node already written, and otherwise the node and what is below it. */
    method DumpNode(index: nat, ghost todo: set<nat>, ghost names: seq<Option<Bytes>>)
      requires Valid() && 1 <= index <= |nodes| && todo == Unserialized(anchors[..]) && todo <= All(nodes) && names == NamesOf(anchors[..])
      modifies anchors, this`output
      ensures Wrote(nodes, names, Walk(nodes, todo, index), old(output), anchors[..], output) == true
      decreases |todo|, 0
    {
      ghost var (a, out) := (anchors[..], output);
      var e := anchors[index - 1];
      var anchor := NameOf(e);
      assert anchor == names[index - 1];
      MarkSerialized(a, index);
      if e.serialized {
        output := output + [AliasEvent(if anchor.Some? then anchor.value else [])];
        WroteAgain(nodes, names, todo, index, a, out);
        return;
      }
      anchors[index - 1] := e.(serialized := true);
      assert anchors[..] == Mark(a, index);
      var n := nodes[index - 1];
      output := output + [NodeEvent(n, anchor)];
      ghost var out1 := output;
      DumpChildren(index, todo - {index}, names);
      ghost var out2 := output;
      if !n.ScalarNode? {
        output := output + [if n.MappingNode? then MappingEnd else SequenceEnd];
      }
      WroteNode(nodes, names, todo, index, out, anchors[..], out2);
    }

    /** The loops over the items of a sequence and the pairs of a mapping. */
    method DumpChildren(index: nat, ghost todo: set<nat>, ghost names: seq<Option<Bytes>>)
      requires Valid() && 1 <= index <= |nodes| && todo == Unserialized(anchors[..]) && todo <= All(nodes) && names == NamesOf(anchors[..])
      modifies anchors, this`output
      ensures Wrote(nodes, names, WalkAll(nodes, todo, Children(nodes[index - 1])), old(output), anchors[..], output) == true
      decreases |todo|, 2
    {
      ghost var out := output;
      assert InRange(nodes, Children(nodes[index - 1]));
      WroteNone(nodes, names, todo, anchors[..], out);
      match nodes[index - 1]
      case ScalarNode(_, _, _) =>
      case SequenceNode(_, _, items) =>
        for k := 0 to |items|
          invariant Wrote(nodes, names, WalkAll(nodes, todo, items[..k]), out, anchors[..], output) == true
        {
          assert items[..k + 1] == items[..k] + [items[k]];
          DumpChild(items[k], todo, names, items[..k], out);
        }
        assert items[..|items|] == items;
      case MappingNode(_, _, pairs) =>
        for k := 0 to |pairs|
          invariant Wrote(nodes, names, WalkAll(nodes, todo, Flat(pairs[..k])), out, anchors[..], output) == true
        {
          FlatAt(pairs, k);
          DumpChild(pairs[k].0, todo, names, Flat(pairs[..k]), out);
          DumpChild(pairs[k].1, todo, names, Flat(pairs[..k]) + [pairs[k].0], out);
        }
        assert pairs[..|pairs|] == pairs;
    }

    method DumpChild(c: nat, ghost todo: set<nat>, ghost names: seq<Option<Bytes>>, ghost cs: seq<nat>, ghost out: seq<Event>)
      requires Valid() && 1 <= c <= |nodes| && todo <= All(nodes)
      requires Wrote(nodes, names, WalkAll(nodes, todo, cs), out, anchors[..], output) == true
      modifies anchors, this`output
      ensures Wrote(nodes, names, WalkAll(nodes, todo, cs + [c]), out, anchors[..], output) == true
      decreases |todo|, 1
    {
      ghost var (a, out1) := (anchors[..], output);
      UnreferencedIn(nodes, a);
      WroteLess(nodes, names, todo, cs, out, a, out1);
      hide *;
      DumpNode(c, Unserialized(a), names);
      WroteStep(nodes, names, todo, cs, out, a, out1, c, anchors[..], output);
    }

    /** `yaml_emitter_dump` on a document with nodes: both passes from the root. */
    method DumpDocument(ghost d: Document, startImplicit: bool, endImplicit: bool)
      requires Valid() && nodes != [] && d == Document(nodes, startImplicit, endImplicit)
      requires lastAnchorId == 0 && anchors[..] == Zeros(|nodes|)
      modifies anchors, this`output, this`lastAnchorId
      ensures ValidDocument(d) && output == old(output) + Dump(d)
    {
      ghost var out := output;
      output := output + [DocumentStart(startImplicit)];
      UnreferencedIn(nodes, anchors[..]);
      AllZero(nodes, anchors[..]);
      AnchorNode(1, All(nodes));
      ghost var (a, names) := (anchors[..], NamesOf(anchors[..]));
      ReferKeeps(Zeros(|nodes|), 0, Walk(nodes, All(nodes), 1).0);
      StillPending(nodes, a);
      TraceIs(nodes);
      DumpNode(1, All(nodes), names);
      output := output + [DocumentEnd(endImplicit)];
      ghost var es := EventsOf(nodes, names, Trace(nodes));
      Assoc(out, [DocumentStart(startImplicit)], es);
      Assoc(out, [DocumentStart(startImplicit)] + es, [DocumentEnd(endImplicit)]);
    }
  }

  // ---------------------------------------------------------------- the second pass

  function Mark(a: seq<Anchor>, i: nat): (r: seq<Anchor>)
    requires 1 <= i <= |a|
    ensures |r| == |a|
  {
    a[i - 1 := a[i - 1].(serialized := true)]
  }

  lemma MarkSerialized(a: seq<Anchor>, i: nat)
    requires 1 <= i <= |a|
    ensures Unserialized(Mark(a, i)) == Unserialized(a) - {i} && NamesOf(Mark(a, i)) == NamesOf(a)
    ensures i in Unserialized(a) <==> !a[i - 1].serialized
  {
    var b := Mark(a, i);
    assert forall k :: 1 <= k <= |a| ==> (Pending(b, k) <==> Pending(a, k) && k != i);
    assert i in Unserialized(a) <==> Pending(a, i);
    assert forall k :: 0 <= k < |a| ==> NameOf(b[k]) == NameOf(a[k]);
  }

  /** The events of the walk `w` were appended to `out`, and its nodes marked. */
  ghost predicate Wrote(nodes: seq<Node>, names: seq<Option<Bytes>>, w: (seq<Visit>, set<nat>), out: seq<Event>, a: seq<Anchor>, out': seq<Event>) {
    && |names| == |nodes| == |a| && InNodes(nodes, w.0) && out' == out + EventsOf(nodes, names, w.0)
    && Unserialized(a) == w.1 && NamesOf(a) == names
  }

  lemma WroteNone(nodes: seq<Node>, names: seq<Option<Bytes>>, todo: set<nat>, a: seq<Anchor>, out: seq<Event>)
    requires ValidIds(nodes) && todo <= All(nodes) && |a| == |nodes| && Unserialized(a) == todo && NamesOf(a) == names
    ensures Wrote(nodes, names, WalkAll(nodes, todo, []), out, a, out) == true
  {
    assert out + [] == out;
  }

  lemma WroteAgain(nodes: seq<Node>, names: seq<Option<Bytes>>, todo: set<nat>, i: nat, a: seq<Anchor>, out: seq<Event>)
    requires ValidIds(nodes) && todo <= All(nodes) && |a| == |nodes| && Unserialized(a) == todo && NamesOf(a) == names
    requires 1 <= i <= |nodes| && i !in todo
    ensures Wrote(nodes, names, Walk(nodes, todo, i), out, a,
                  out + [AliasEvent(if names[i - 1].Some? then names[i - 1].value else [])]) == true
  {
    hide Unserialized, NamesOf;
    EventsOne(nodes, names, Again(i));
    assert Walk(nodes, todo, i) == ([Again(i)], todo);
  }

  lemma EventsOne(nodes: seq<Node>, names: seq<Option<Bytes>>, v: Visit)
    requires |names| == |nodes| && 1 <= v.id <= |nodes|
    ensures InNodes(nodes, [v]) && EventsOf(nodes, names, [v]) == [VisitEvent(nodes, names, v)]
  {
    assert [v][1..] == [];
  }

  lemma WroteNode(nodes: seq<Node>, names: seq<Option<Bytes>>, todo: set<nat>, i: nat, out: seq<Event>, a: seq<Anchor>, out2: seq<Event>)
    requires ValidIds(nodes) && todo <= All(nodes) && i in todo && |names| == |nodes| && 1 <= i <= |nodes|
    requires Wrote(nodes, names, WalkAll(nodes, todo - {i}, Children(nodes[i - 1])), out + [NodeEvent(nodes[i - 1], names[i - 1])], a, out2)
    ensures Wrote(nodes, names, Walk(nodes, todo, i), out, a,
                  if nodes[i - 1].ScalarNode? then out2 else out2 + [if nodes[i - 1].MappingNode? then MappingEnd else SequenceEnd]) == true
  {
    WalkShape(nodes, todo, i);
    if nodes[i - 1].ScalarNode? {
      WroteScalar(nodes, names, i, WalkAll(nodes, todo - {i}, []), out, a, out2);
    } else {
      WroteCollection(nodes, names, i, WalkAll(nodes, todo - {i}, Children(nodes[i - 1])), out, a, out2);
    }
  }

  lemma WroteScalar(nodes: seq<Node>, names: seq<Option<Bytes>>, i: nat, w: (seq<Visit>, set<nat>), out: seq<Event>, a: seq<Anchor>, out2: seq<Event>)
    requires |names| == |nodes| && 1 <= i <= |nodes| && w.0 == [] && nodes[i - 1].ScalarNode?
    requires Wrote(nodes, names, w, out + [NodeEvent(nodes[i - 1], names[i - 1])], a, out2)
    ensures Wrote(nodes, names, ([First(i)] + w.0 + [], w.1), out, a, out2) == true
  {
    assert [First(i)] + w.0 + [] == [First(i)];
    EventsOne(nodes, names, First(i));
  }

  lemma WroteCollection(nodes: seq<Node>, names: seq<Option<Bytes>>, i: nat, w: (seq<Visit>, set<nat>), out: seq<Event>, a: seq<Anchor>,
                        out2: seq<Event>)
    requires |names| == |nodes| && 1 <= i <= |nodes| && !nodes[i - 1].ScalarNode?
    requires Wrote(nodes, names, w, out + [NodeEvent(nodes[i - 1], names[i - 1])], a, out2)
    ensures Wrote(nodes, names, ([First(i)] + w.0 + [Leave(i)], w.1), out, a,
                  out2 + [if nodes[i - 1].MappingNode? then MappingEnd else SequenceEnd]) == true
  {
    var n := nodes[i - 1];
    EventsParts(nodes, names, i, w.0);
    hide EventsOf, Unserialized, NamesOf, NodeEvent;
    var (e0, es, e1) := (NodeEvent(n, names[i - 1]), EventsOf(nodes, names, w.0), VisitEvent(nodes, names, Leave(i)));
    Assoc(out, [e0], es);
    Assoc(out, [e0] + es, [e1]);
  }

  lemma WroteStep(nodes: seq<Node>, names: seq<Option<Bytes>>, todo: set<nat>, cs: seq<nat>, out: seq<Event>, a: seq<Anchor>, out1: seq<Event>,
                  c: nat, a': seq<Anchor>, out2: seq<Event>)
    requires ValidIds(nodes) && todo <= All(nodes) && Wrote(nodes, names, WalkAll(nodes, todo, cs), out, a, out1)
    requires Unserialized(a) <= All(nodes) && Wrote(nodes, names, Walk(nodes, Unserialized(a), c), out1, a', out2)
    ensures Wrote(nodes, names, WalkAll(nodes, todo, cs + [c]), out, a', out2) == true
  {
    WalkAllSnoc(nodes, todo, cs, c);
    var (s, t) := (WalkAll(nodes, todo, cs).0, Walk(nodes, Unserialized(a), c).0);
    EventsJoin(nodes, names, s, t);
    Assoc(out, EventsOf(nodes, names, s), EventsOf(nodes, names, t));
  }

  lemma WroteLess(nodes: seq<Node>, names: seq<Option<Bytes>>, todo: set<nat>, cs: seq<nat>, out: seq<Event>, a: seq<Anchor>, out1: seq<Event>)
    requires ValidIds(nodes) && todo <= All(nodes) && Wrote(nodes, names, WalkAll(nodes, todo, cs), out, a, out1)
    ensures |Unserialized(a)| <= |todo| && NamesOf(a) == names
  {
    Smaller(Unserialized(a), todo);
  }

  lemma AllZero(nodes: seq<Node>, a: seq<Anchor>)
    requires a == Zeros(|nodes|)
    ensures Unreferenced(a) == All(nodes)
  {
    assert forall i :: 1 <= i <= |nodes| ==> Id(nodes, i) && Fresh(a, i);
  }

  /** The first pass marks nothing as written. */
  lemma {:induction false} ReferKeeps(a: seq<Anchor>, last: nat, t: seq<Visit>)
    requires InSpan(|a|, t) && forall k :: 0 <= k < |a| ==> !a[k].serialized
    ensures forall k :: 0 <= k < |a| ==> !ReferAll(a, last, t).0[k].serialized
    decreases |t|
  {
    if t != [] {
      if t[0].Leave? {
        ReferKeeps(a, last, t[1..]);
        assert ReferAll(a, last, t) == ReferAll(a, last, t[1..]);
      } else {
        var (b, next) := Refer(a, last, t[0].id);
        assert forall k :: 0 <= k < |b| ==> !b[k].serialized;
        ReferKeeps(b, next, t[1..]);
        assert ReferAll(a, last, t) == ReferAll(b, next, t[1..]);
      }
    }
  }

  lemma StillPending(nodes: seq<Node>, a: seq<Anchor>)
    requires |a| == |nodes| && forall k :: 0 <= k < |a| ==> !a[k].serialized
    ensures Unserialized(a) == All(nodes)
  {
    assert forall i :: 1 <= i <= |nodes| ==> Id(nodes, i) && Pending(a, i);
  }

  lemma CountedLess(nodes: seq<Node>, todo: set<nat>, b: seq<Anchor>, next: nat, cs: seq<nat>, a: seq<Anchor>, last: nat)
    requires Counted(nodes, todo, b, next, cs, a, last)
    ensures |Unreferenced(a)| <= |todo|
  {
    Smaller(Unreferenced(a), todo);
  }

  lemma FlatAt(pairs: seq<(nat, nat)>, k: nat)
    requires k < |pairs|
    ensures Flat(pairs[..k + 1]) == Flat(pairs[..k]) + [pairs[k].0] + [pairs[k].1]
    ensures pairs[k].0 in Flat(pairs) && pairs[k].1 in Flat(pairs)
  {
    FlatHas(pairs, k);
    assert pairs[..k + 1][..k] == pairs[..k];
  }
}
