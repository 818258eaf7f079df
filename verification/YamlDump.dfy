/** The serializer: counting references, naming shared nodes, and writing events. */
module YamlDump {
  import opened ByteOrder
  import opened Options
  import opened Sequences
  import opened YamlGraph
  import opened YamlLoad
  import opened YamlRoundTrip

  // ---------------------------------------------------------------- anchor names

  function Digits(n: nat): (r: Bytes)
    ensures r != []
  {
    if n < 10 then [48 + n] else Digits(n / 10) + [48 + n % 10]
  }

  function Pad(b: Bytes): Bytes
    decreases 3 - |b|
  {
    if |b| < 3 then Pad([48] + b) else b
  }

  /** "id%03d". */
  function AnchorText(id: nat): Bytes {
    [105, 100] + Pad(Digits(id))
  }

  ghost function Decimal(b: Bytes): int {
    if b == [] then 0 else 10 * Decimal(b[..|b| - 1]) + b[|b| - 1] as int - 48
  }

  lemma {:induction false} DecimalDigits(n: nat)
    ensures Decimal(Digits(n)) == n
  {
    if n < 10 {
      assert [48 + n][..0] == [];
      assert Decimal([48 + n]) == 10 * Decimal([]) + n;
    } else {
      DecimalDigits(n / 10);
      assert Digits(n)[..|Digits(n)| - 1] == Digits(n / 10);
    }
  }

  lemma {:induction false} DecimalZero(b: Bytes)
    ensures Decimal([48] + b) == Decimal(b)
  {
    if b == [] {
      assert [48] + b == [48];
      assert [48][..0] == [];
      assert Decimal([48]) == 10 * Decimal([]) + 0;
    } else {
      DecimalZero(b[..|b| - 1]);
      assert ([48] + b)[..|b|] == [48] + b[..|b| - 1];
    }
  }

  lemma {:induction false} DecimalPad(b: Bytes)
    ensures Decimal(Pad(b)) == Decimal(b)
    decreases 3 - |b|
  {
    if |b| < 3 {
      DecimalZero(b);
      DecimalPad([48] + b);
    }
  }

  lemma {:induction false} DigitsIs(n: nat)
    ensures (forall d <- Digits(n) :: 48 <= d <= 57) && (|Digits(n)| > 1 ==> Digits(n)[0] != 48)
  {
    if n >= 10 {
      DigitsIs(n / 10);
    }
  }

  /** The anchor of a number: "id" and its decimal digits, three at least and more without leading zeros. */
  lemma AnchorTextIs(n: nat)
    ensures var t := AnchorText(n);
      && |t| >= 5 && t[0] == 'i' as int && t[1] == 'd' as int && (forall d <- t[2..] :: '0' as int <= d <= '9' as int)
      && Decimal(t[2..]) == n && (|t| > 5 ==> t[2] != '0' as int)
  {
    DigitsIs(n);
    DecimalDigits(n);
    DecimalPad(Digits(n));
    var d := Digits(n);
    if |d| == 1 {
      assert Pad(d) == Pad([48] + d) && Pad([48] + d) == Pad([48] + ([48] + d));
    } else if |d| == 2 {
      assert Pad(d) == [48] + d;
    }
    assert AnchorText(n)[2..] == Pad(d);
  }

  /** Different ids have different anchors. */
  lemma AnchorsDiffer(a: nat, b: nat)
    requires AnchorText(a) == AnchorText(b)
    ensures a == b
  {
    assert AnchorText(a)[2..] == Pad(Digits(a)) && AnchorText(b)[2..] == Pad(Digits(b));
    DecimalPad(Digits(a));
    DecimalPad(Digits(b));
    DecimalDigits(a);
    DecimalDigits(b);
  }

  // ---------------------------------------------------------------- counting references

  datatype Anchor = Anchor(references: nat, anchor: nat, serialized: bool)

  /** One more reference; the second one gives the node an anchor id. */
  function Refer(a: seq<Anchor>, last: nat, i: nat): (r: (seq<Anchor>, nat))
    requires 1 <= i <= |a|
    ensures |r.0| == |a|
  {
    var e := a[i - 1];
    var n := e.references + 1;
    if n == 2 then (a[i - 1 := e.(references := n, anchor := last + 1)], last + 1)
    else (a[i - 1 := e.(references := n)], last)
  }

  ghost predicate InSpan(n: nat, t: seq<Visit>) {
    forall k :: 0 <= k < |t| ==> 1 <= t[k].id <= n
  }

  ghost function ReferAll(a: seq<Anchor>, last: nat, t: seq<Visit>): (r: (seq<Anchor>, nat))
    requires InSpan(|a|, t)
    ensures |r.0| == |a|
    decreases |t|
  {
    if t == [] then (a, last)
    else if t[0].Leave? then ReferAll(a, last, t[1..])
    else
      var (b, next) := Refer(a, last, t[0].id);
      ReferAll(b, next, t[1..])
  }

  lemma {:induction false} ReferJoin(a: seq<Anchor>, last: nat, s: seq<Visit>, t: seq<Visit>)
    requires InSpan(|a|, s) && InSpan(|a|, t)
    ensures InSpan(|a|, s + t)
    ensures var (b, next) := ReferAll(a, last, s); ReferAll(a, last, s + t) == ReferAll(b, next, t)
    decreases |s|
  {
    if s == [] {
      assert s + t == t;
    } else {
      assert (s + t)[0] == s[0] && (s + t)[1..] == s[1..] + t;
      if s[0].Leave? {
        ReferJoin(a, last, s[1..], t);
      } else {
        var (b, next) := Refer(a, last, s[0].id);
        ReferJoin(b, next, s[1..], t);
      }
    }
  }

  /** How often a walk comes to a node. */
  ghost function Count(t: seq<Visit>, i: nat): nat {
    if t == [] then 0 else (if !t[0].Leave? && t[0].id == i then 1 else 0) + Count(t[1..], i)
  }

  /** Exactly the nodes referred to twice have an anchor id, and no two share one. */
  ghost predicate Numbered(a: seq<Anchor>, last: nat) {
    && (forall k :: 0 <= k < |a| ==> (a[k].anchor != 0 <==> a[k].references >= 2) && a[k].anchor <= last)
    && (forall j, k :: 0 <= j < k < |a| && a[j].anchor != 0 ==> a[j].anchor != a[k].anchor)
  }

  lemma {:induction false} ReferNumbers(a: seq<Anchor>, last: nat, t: seq<Visit>)
    requires InSpan(|a|, t) && Numbered(a, last)
    ensures var (b, next) := ReferAll(a, last, t);
      Numbered(b, next) && forall k :: 0 <= k < |a| ==> b[k].references == a[k].references + Count(t, k + 1)
    decreases |t|
  {
    if t != [] {
      if t[0].Leave? {
        ReferNumbers(a, last, t[1..]);
      } else {
        var (b, next) := Refer(a, last, t[0].id);
        assert Numbered(b, next);
        ReferNumbers(b, next, t[1..]);
      }
    }
  }

  lemma {:induction false} CountAt(t: seq<Visit>, i: nat, p: nat)
    requires p < |t| && !t[p].Leave? && t[p].id == i
    ensures Count(t, i) >= 1
  {
    if p > 0 {
      CountAt(t[1..], i, p - 1);
    }
  }

  lemma {:induction false} CountTwo(t: seq<Visit>, i: nat, p: nat, q: nat)
    requires p < |t| && q < |t| && p != q && !t[p].Leave? && t[p].id == i && !t[q].Leave? && t[q].id == i
    ensures Count(t, i) >= 2
  {
    if p == 0 {
      CountAt(t[1..], i, q - 1);
    } else if q == 0 {
      CountAt(t[1..], i, p - 1);
    } else {
      CountTwo(t[1..], i, p - 1, q - 1);
    }
  }

  /** A node come to again was met before, or is met in the same walk. */
  lemma {:induction false} AgainMet(nodes: seq<Node>, todo: set<nat>, i: nat, j: nat)
    requires ValidIds(nodes) && todo <= All(nodes) && Again(j) in Walk(nodes, todo, i).0 && j in todo
    ensures First(j) in Walk(nodes, todo, i).0
    decreases |todo|, 0
  {
    if i in todo {
      var n := nodes[i - 1];
      var w := WalkAll(nodes, todo - {i}, Children(n)).0;
      var e := if n.ScalarNode? then [] else [Leave(i)];
      assert Walk(nodes, todo, i).0 == [First(i)] + w + e;
      if i != j {
        assert Again(j) in w;
        AgainMetAll(nodes, todo - {i}, Children(n), j);
      }
    }
  }

  lemma {:induction false} AgainMetAll(nodes: seq<Node>, todo: set<nat>, cs: seq<nat>, j: nat)
    requires ValidIds(nodes) && todo <= All(nodes) && Again(j) in WalkAll(nodes, todo, cs).0 && j in todo
    ensures First(j) in WalkAll(nodes, todo, cs).0
    decreases |todo|, 1 + |cs|
  {
    if cs != [] {
      var (t, left) := Walk(nodes, todo, cs[0]);
      Smaller(left, todo);
      var t' := WalkAll(nodes, left, cs[1..]).0;
      if Again(j) in t {
        AgainMet(nodes, todo, cs[0], j);
      } else if j in left {
        AgainMetAll(nodes, left, cs[1..], j);
      } else {
        WalkFirsts(nodes, todo, cs[0]);
        FirstIn(t, j);
      }
    }
  }

  lemma {:induction false} FirstIn(t: seq<Visit>, j: nat)
    requires j in Firsts(t)
    ensures First(j) in t
  {
    if t[0] != First(j) {
      FirstIn(t[1..], j);
    }
  }

  // ---------------------------------------------------------------- a whole document

  datatype Document = Document(nodes: seq<Node>, startImplicit: bool, endImplicit: bool)

  ghost predicate ValidDocument(d: Document) {
    d.nodes != [] && ValidIds(d.nodes)
  }

  ghost function Zeros(n: nat): seq<Anchor> {
    seq(n, _ => Anchor(0, 0, false))
  }

  ghost function NamesOf(a: seq<Anchor>): (r: seq<Option<Bytes>>)
    ensures |r| == |a|
  {
    seq(|a|, k requires 0 <= k < |a| => NameOf(a[k]))
  }

  function NameOf(a: Anchor): Option<Bytes> {
    if a.anchor == 0 then None else Some(AnchorText(a.anchor))
  }

  ghost function Trace(nodes: seq<Node>): (t: seq<Visit>)
    requires nodes != [] && ValidIds(nodes)
    ensures InNodes(nodes, t) && InSpan(|nodes|, t)
  {
    WalkInNodes(nodes, All(nodes), 1);
    Walk(nodes, All(nodes), 1).0
  }

  /** The names of the nodes: one for each node referred to more than once. */
  ghost function Names(nodes: seq<Node>): (r: seq<Option<Bytes>>)
    requires nodes != [] && ValidIds(nodes)
    ensures |r| == |nodes|
  {
    NamesOf(ReferAll(Zeros(|nodes|), 0, Trace(nodes)).0)
  }

  /** What the dumper writes for a document. */
  ghost function Dump(d: Document): seq<Event>
    requires ValidDocument(d)
  {
    [DocumentStart(d.startImplicit)] + EventsOf(d.nodes, Names(d.nodes), Trace(d.nodes)) + [DocumentEnd(d.endImplicit)]
  }

  /** `load_nodes`: until the end of the document. */
  function LoadNodes(l: Loader, es: seq<Event>): Option<(Loader, bool)>
    decreases |es|
  {
    if es == [] then None
    else if es[0].DocumentEnd? then Some((l, es[0].implicit))
    else match Step(l, es[0])
    case None => None
    case Some(k) => LoadNodes(k, es[1..])
  }

  function Load(es: seq<Event>): Option<Document> {
    if es == [] || !es[0].DocumentStart? then None
    else match LoadNodes(Loader([], [], []), es[1..])
    case None => None
    case Some((l, implicit)) => Some(Document(l.nodes, es[0].implicit, implicit))
  }

  lemma {:induction false} LoadNodesAll(l: Loader, es: seq<Event>, implicit: bool)
    requires LoadAll(l, es).Some?
    ensures LoadNodes(l, es + [DocumentEnd(implicit)]) == Some((LoadAll(l, es).value, implicit))
    decreases |es|
  {
    if es != [] {
      assert (es + [DocumentEnd(implicit)])[0] == es[0] && (es + [DocumentEnd(implicit)])[1..] == es[1..] + [DocumentEnd(implicit)];
      LoadNodesAll(Step(l, es[0]).value, es[1..], implicit);
    } else {
      assert es + [DocumentEnd(implicit)] == [DocumentEnd(implicit)];
    }
  }

  /** The names are distinct, and every node come to again has one. */
  lemma NamesFit(nodes: seq<Node>)
    requires nodes != [] && ValidIds(nodes)
    ensures Distinct(Names(nodes)) && Named(Names(nodes), Trace(nodes))
  {
    var (t, zeros) := (Trace(nodes), Zeros(|nodes|));
    ReferNumbers(zeros, 0, t);
    var (a, last) := ReferAll(zeros, 0, t);
    var names := Names(nodes);
    forall i, j | 0 <= i < j < |names| && names[i].Some?
      ensures names[i] != names[j]
    {
      if names[i] == names[j] {
        AnchorsDiffer(a[i].anchor, a[j].anchor);
      }
    }
    forall k | 0 <= k < |t| && t[k].Again?
      ensures names[t[k].id - 1].Some?
    {
      var j := t[k].id;
      assert t[k] == Again(j) && Again(j) in t && Id(nodes, j);
      AgainMet(nodes, All(nodes), 1, j);
      var p :| 0 <= p < |t| && t[p] == First(j);
      CountTwo(t, j, p, k);
    }
  }

  /** The nodes of the document, in the order of their first visits, with their children renumbered. */
  ghost function Loaded(nodes: seq<Node>): seq<Node>
    requires nodes != [] && ValidIds(nodes)
  {
    OrderInRange(nodes);
    Images(nodes, FirstOrder(nodes), FirstOrder(nodes))
  }

  lemma OrderInRange(nodes: seq<Node>)
    requires nodes != [] && ValidIds(nodes)
    ensures InRange(nodes, FirstOrder(nodes))
  {
    FirstOrderReaches(nodes, {});
    assert forall k :: 0 <= k < |FirstOrder(nodes)| ==> FirstOrder(nodes)[k] in Elems(FirstOrder(nodes));
  }

  lemma StartSynced(nodes: seq<Node>, names: seq<Option<Bytes>>)
    requires ValidIds(nodes) && |names| == |nodes| && Distinct(names)
    ensures Synced(nodes, names, All(nodes), [], Loader([], [], [])) == true
  {
  }

  lemma LoadBody(nodes: seq<Node>)
    requires nodes != [] && ValidIds(nodes)
    ensures var l := LoadAll(Loader([], [], []), EventsOf(nodes, Names(nodes), Trace(nodes)));
      l.Some? && l.value.nodes == Loaded(nodes)
  {
    var (names, l) := (Names(nodes), Loader([], [], []));
    NamesFit(nodes);
    StartSynced(nodes, names);
    OrderInRange(nodes);
    TraceIs(nodes);
    hide *;
    LoadWalk(nodes, names, All(nodes), [], l, 1);
    LoadsAll(nodes, names, Trace(nodes), [Place([] + Firsts(Trace(nodes)), 1)]);
  }

  lemma TraceIs(nodes: seq<Node>)
    requires nodes != [] && ValidIds(nodes)
    ensures Trace(nodes) == Walk(nodes, All(nodes), 1).0 && Firsts(Trace(nodes)) == FirstOrder(nodes)
    ensures InRange(nodes, FirstOrder(nodes)) && Loaded(nodes) == Images(nodes, FirstOrder(nodes), FirstOrder(nodes))
  {
    OrderInRange(nodes);
  }

  lemma LoadsAll(nodes: seq<Node>, names: seq<Option<Bytes>>, t: seq<Visit>, ids: seq<nat>)
    requires |nodes| == |names| && InNodes(nodes, t) && InRange(nodes, Firsts(t)) && Loads(nodes, names, t, [], Loader([], [], []), ids)
    ensures var l := LoadAll(Loader([], [], []), EventsOf(nodes, names, t)); l.Some? && l.value.nodes == Images(nodes, Firsts(t), Firsts(t))
  {
    var f := Firsts(t);
    assert [] + f == f;
    hide Images, LoadAll, EventsOf, AliasList;
    assert Adopts([], [], ids) == [] && [] + Images(nodes, f, f) == Images(nodes, f, f);
  }

  /** Loading a dumped document gives its reachable part, renumbered. */
  lemma LoadDumped(d: Document)
    requires ValidDocument(d)
    ensures Load(Dump(d)) == Some(Document(Loaded(d.nodes), d.startImplicit, d.endImplicit))
  {
    var es := EventsOf(d.nodes, Names(d.nodes), Trace(d.nodes));
    LoadBody(d.nodes);
    LoadNodesAll(Loader([], [], []), es, d.endImplicit);
    assert Dump(d)[0] == DocumentStart(d.startImplicit) && Dump(d)[1..] == es + [DocumentEnd(d.endImplicit)];
  }

  // ---------------------------------------------------------------- isomorphism

  /** `b` is the node `a` with its children renumbered. */
  ghost predicate SameNode(a: Node, b: Node, ord: seq<nat>) {
    match a
    case ScalarNode(tag, value, style) => b == ScalarNode(tag, value, style)
    case SequenceNode(tag, style, items) => b == SequenceNode(tag, style, Places(ord, items))
    case MappingNode(tag, style, pairs) => b == MappingNode(tag, style, PairPlaces(ord, pairs))
  }

  ghost function PairPlaces(ord: seq<nat>, pairs: seq<(nat, nat)>): seq<(nat, nat)> {
    seq(|pairs|, k requires 0 <= k < |pairs| => (Place(ord, pairs[k].0), Place(ord, pairs[k].1)))
  }

  /** `b` is the part of `a` reachable from the root, numbered in the order `ord` of first visits. */
  ghost predicate Isomorphic(a: seq<Node>, b: seq<Node>, ord: seq<nat>)
    requires InRange(a, ord)
  {
    |b| == |ord| && forall k :: 0 <= k < |ord| ==> SameNode(a[ord[k] - 1], b[k], ord)
  }

  ghost predicate NonSpecific(n: Node) {
    n.tag == [33]
  }

  lemma {:induction false} FlatPlaces(ord: seq<nat>, pairs: seq<(nat, nat)>)
    ensures Places(ord, Flat(pairs)) == Flat(PairPlaces(ord, pairs))
  {
    if pairs != [] {
      var m := |pairs| - 1;
      FlatPlaces(ord, pairs[..m]);
      assert PairPlaces(ord, pairs)[..m] == PairPlaces(ord, pairs[..m]);
    }
  }

  /** A loaded node is the node renumbered, unless its tag was "!". */
  lemma ImageSame(nodes: seq<Node>, ord: seq<nat>, n: Node)
    requires forall c <- Children(n) :: c in ord
    ensures SameNode(n, Image(ord, n), ord) <==> !NonSpecific(n)
    ensures Children(Image(ord, n)) == Places(ord, Children(n)) && (Image(ord, n).ScalarNode? <==> n.ScalarNode?)
    ensures Image(ord, n).MappingNode? <==> n.MappingNode?
  {
    var b := Bare(n);
    match n
    case ScalarNode(_, _, _) =>
      assert Places(ord, []) == [];
    case SequenceNode(tag, style, items) =>
      FillSequence(b.tag, style, Places(ord, items));
    case MappingNode(tag, style, pairs) =>
      FlatPlaces(ord, pairs);
      var ps := PairPlaces(ord, pairs);
      forall k | 0 <= k < |pairs|
        ensures ps[k].0 != 0 && ps[k].1 != 0
      {
        FlatHas(pairs, k);
      }
      FillMapping(b.tag, style, ps);
  }

  lemma {:induction false} FlatHas(pairs: seq<(nat, nat)>, k: nat)
    requires k < |pairs|
    ensures pairs[k].0 in Flat(pairs) && pairs[k].1 in Flat(pairs)
  {
    var m := |pairs| - 1;
    if k < m {
      FlatHas(pairs[..m], k);
    }
  }

  /** The children of the nodes in first-visit order are in it. */
  lemma OrderClosed(nodes: seq<Node>, k: nat)
    requires nodes != [] && ValidIds(nodes) && k < |FirstOrder(nodes)|
    ensures 1 <= FirstOrder(nodes)[k] <= |nodes|
    ensures forall c <- Children(nodes[FirstOrder(nodes)[k] - 1]) :: c in FirstOrder(nodes)
  {
    FirstOrderReaches(nodes, {});
    var x := FirstOrder(nodes)[k];
    assert x in Elems(FirstOrder(nodes));
    forall c <- Children(nodes[x - 1])
      ensures c in FirstOrder(nodes)
    {
      assert c in Elems(FirstOrder(nodes));
    }
  }

  lemma LoadedSame(nodes: seq<Node>, k: nat)
    requires nodes != [] && ValidIds(nodes) && k < |FirstOrder(nodes)|
    ensures var (ord, x) := (FirstOrder(nodes), FirstOrder(nodes)[k]);
      1 <= x <= |nodes| && |Loaded(nodes)| == |ord| && Children(Loaded(nodes)[k]) == Places(ord, Children(nodes[x - 1]))
      && (SameNode(nodes[x - 1], Loaded(nodes)[k], ord) <==> !NonSpecific(nodes[x - 1]))
      && (Loaded(nodes)[k].ScalarNode? <==> nodes[x - 1].ScalarNode?) && (Loaded(nodes)[k].MappingNode? <==> nodes[x - 1].MappingNode?)
  {
    hide *;
    LoadedAt(nodes, k);
    OrderClosed(nodes, k);
    ImageSame(nodes, FirstOrder(nodes), nodes[FirstOrder(nodes)[k] - 1]);
  }

  lemma LoadedAt(nodes: seq<Node>, k: nat)
    requires nodes != [] && ValidIds(nodes) && k < |FirstOrder(nodes)|
    ensures 1 <= FirstOrder(nodes)[k] <= |nodes| && |Loaded(nodes)| == |FirstOrder(nodes)|
    ensures Loaded(nodes)[k] == Image(FirstOrder(nodes), nodes[FirstOrder(nodes)[k] - 1])
  {
    OrderInRange(nodes);
    hide FirstOrder, Image;
  }

  lemma IsomorphicIff(a: seq<Node>, b: seq<Node>, ord: seq<nat>)
    requires InRange(a, ord) && |b| == |ord|
    requires forall k :: 0 <= k < |ord| ==> (SameNode(a[ord[k] - 1], b[k], ord) <==> !NonSpecific(a[ord[k] - 1]))
    ensures Isomorphic(a, b, ord) <==> forall i <- ord :: !NonSpecific(a[i - 1])
  {
    hide SameNode, NonSpecific;
    if forall i <- ord :: !NonSpecific(a[i - 1]) {
      assert forall k :: 0 <= k < |ord| ==> ord[k] in ord;
    } else {
      var i :| i in ord && NonSpecific(a[i - 1]);
      var k :| 0 <= k < |ord| && ord[k] == i;
      assert !SameNode(a[ord[k] - 1], b[k], ord);
    }
  }

  /**
   The round trip: loading what was dumped gives a document isomorphic to the part reachable
   from the root, numbered in first-visit order, exactly when no reachable node has the tag "!".
   */
  lemma RoundTrip(d: Document)
    requires ValidDocument(d)
    ensures InRange(d.nodes, FirstOrder(d.nodes))
    ensures var (r, ord) := (Load(Dump(d)), FirstOrder(d.nodes));
      r.Some? && r.value.startImplicit == d.startImplicit && r.value.endImplicit == d.endImplicit
      && (Isomorphic(d.nodes, r.value.nodes, ord) <==> forall i <- ord :: !NonSpecific(d.nodes[i - 1]))
  {
    hide *;
    LoadDumped(d);
    ValidIs(d);
    var (nodes, ord, m) := (d.nodes, FirstOrder(d.nodes), Loaded(d.nodes));
    OrderInRange(nodes);
    TraceIs(nodes);
    forall k | 0 <= k < |ord|
      ensures SameNode(nodes[ord[k] - 1], m[k], ord) <==> !NonSpecific(nodes[ord[k] - 1])
    {
      LoadedSame(nodes, k);
    }
    IsomorphicIff(nodes, m, ord);
  }

  lemma ValidIs(d: Document)
    requires ValidDocument(d)
    ensures d.nodes != [] && ValidIds(d.nodes) && InRange(d.nodes, FirstOrder(d.nodes))
    ensures forall k :: 0 <= k < |FirstOrder(d.nodes)| ==> 1 <= FirstOrder(d.nodes)[k] <= |d.nodes|
  {
    OrderInRange(d.nodes);
  }
}
