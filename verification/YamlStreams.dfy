/** What the composer makes of any stream of events, dumped or not. */
module YamlStreams {
  import opened ByteOrder
  import opened Options
  import opened Sequences
  import opened YamlGraph
  import opened YamlLoad
  import opened YamlDump

  /** The bytes spell the text. */
  predicate Spells(b: Bytes, s: string) {
    |b| == |s| && forall i :: 0 <= i < |s| ==> b[i] == s[i] as int
  }

  // ---------------------------------------------------------------- the nodes

  predicate IsNode(e: Event) { e.ScalarEvent? || e.SequenceStart? || e.MappingStart? }

  /** The events that stand for nodes, in order. */
  ghost function NodeEvents(es: seq<Event>): seq<Event> {
    if es == [] then [] else (if IsNode(es[0]) then [es[0]] else []) + NodeEvents(es[1..])
  }

  /** The tag of a node: that of its event; for none, and for "!", the one that its kind has in YAML. */
  predicate Tagged(tag: Option<Bytes>, default: string, was: Bytes) {
    if tag == None || Spells(tag.value, "!") then Spells(was, default) else tag == Some(was)
  }

  /** The node is what the event says: its kind, its value, its style and its tag. */
  ghost predicate Describes(e: Event, n: Node) {
    match e
    case ScalarEvent(_, tag, value, style) => n.ScalarNode? && n.value == value && n.style == style && Tagged(tag, "tag:yaml.org,2002:str", n.tag)
    case SequenceStart(_, tag, style) => n.SequenceNode? && n.style == style && Tagged(tag, "tag:yaml.org,2002:seq", n.tag)
    case MappingStart(_, tag, style) => n.MappingNode? && n.style == style && Tagged(tag, "tag:yaml.org,2002:map", n.tag)
    case _ => false
  }

  lemma DefaultTags()
    ensures Spells(DEFAULT_SCALAR_TAG, "tag:yaml.org,2002:str")
    ensures Spells(DEFAULT_SEQUENCE_TAG, "tag:yaml.org,2002:seq")
    ensures Spells(DEFAULT_MAPPING_TAG, "tag:yaml.org,2002:map")
  {
    assert Spells(YAML_TAG, "tag:yaml.org,2002:");
    assert Spells([115, 116, 114], "str") && Spells([115, 101, 113], "seq") && Spells([109, 97, 112], "map");
    SpellsJoin(YAML_TAG, [115, 116, 114], "tag:yaml.org,2002:", "str");
  }

  lemma SpellsJoin(a: Bytes, b: Bytes, s: string, t: string)
    requires Spells(a, s) && Spells(b, t)
    ensures Spells(a + b, s + t)
  {
  }

  /** What the later children of a collection do not change. */
  predicate SameHead(a: Node, b: Node) {
    match a
    case ScalarNode(tag, value, style) => b == a
    case SequenceNode(tag, style, _) => b.SequenceNode? && b.tag == tag && b.style == style
    case MappingNode(tag, style, _) => b.MappingNode? && b.tag == tag && b.style == style
  }

  ghost predicate SameHeads(a: seq<Node>, b: seq<Node>) {
    |a| <= |b| && forall i :: 0 <= i < |a| ==> SameHead(a[i], b[i])
  }

  lemma StepDescribes(l: Loader, e: Event)
    requires Step(l, e).Some?
    ensures var nodes := Step(l, e).value.nodes;
      SameHeads(l.nodes, nodes) && if IsNode(e) then |nodes| == |l.nodes| + 1 && Describes(e, nodes[|l.nodes|]) else |nodes| == |l.nodes|
  {
    DefaultTags();
    assert Spells([33], "!");
    hide Spells;
    forall tag: Option<Bytes> | tag.Some?
      ensures Spells(tag.value, "!") <==> tag.value == [33]
    {
      Exclamation(tag.value);
    }
  }

  lemma Exclamation(b: Bytes)
    ensures Spells(b, "!") <==> b == [33]
  {
    if Spells(b, "!") {
      assert b[0] == "!"[0] as int;
    }
  }

  lemma {:induction false} AllDescribed(l: Loader, es: seq<Event>)
    requires LoadAll(l, es).Some?
    ensures var nodes := LoadAll(l, es).value.nodes;
      && |nodes| == |l.nodes| + |NodeEvents(es)| && SameHeads(l.nodes, nodes)
      && forall i :: 0 <= i < |NodeEvents(es)| ==> Describes(NodeEvents(es)[i], nodes[|l.nodes| + i])
    decreases |es|
  {
    if es != [] {
      StepDescribes(l, es[0]);
      hide Step, Spells, Tagged;
      AllDescribed(Step(l, es[0]).value, es[1..]);
    }
  }

  // ---------------------------------------------------------------- which streams are accepted

  /** Every end has its start, and there is nothing but nodes and aliases; `open` says of each open collection whether it is a mapping. */
  predicate Balanced(es: seq<Event>, open: seq<bool>)
    decreases |es|
  {
    es == [] ||
    match es[0]
    case AliasEvent(_) => Balanced(es[1..], open)
    case ScalarEvent(_, _, _, _) => Balanced(es[1..], open)
    case SequenceStart(_, _, _) => Balanced(es[1..], open + [false])
    case MappingStart(_, _, _) => Balanced(es[1..], open + [true])
    case SequenceEnd => open != [] && !open[|open| - 1] && Balanced(es[1..], open[..|open| - 1])
    case MappingEnd => open != [] && open[|open| - 1] && Balanced(es[1..], open[..|open| - 1])
    case _ => false
  }

  /** The anchor that an event gives to its node. */
  function NameOf(e: Event): seq<Bytes> {
    if IsNode(e) && e.name.Some? then [e.name.value] else []
  }

  function NamesIn(es: seq<Event>): seq<Bytes> {
    if es == [] then [] else NameOf(es[0]) + NamesIn(es[1..])
  }

  /** Anchors are given once, and an alias means one that was given before it. */
  ghost predicate Anchored(es: seq<Event>, known: seq<Bytes>) {
    NoDup(known + NamesIn(es)) && forall j :: 0 <= j < |es| && es[j].AliasEvent? ==> es[j].anchor in known + NamesIn(es[..j])
  }

  lemma AnchoredStep(es: seq<Event>, known: seq<Bytes>)
    requires es != [] && NoDup(known)
    ensures Anchored(es, known) <==>
      && (es[0].AliasEvent? ==> es[0].anchor in known) && NoDup(known + NameOf(es[0])) && Anchored(es[1..], known + NameOf(es[0]))
  {
    var (name, more) := (NameOf(es[0]), es[1..]);
    Assoc(known, name, NamesIn(more));
    assert NamesIn(es[..0]) == [] && known + [] == known;
    forall j | 1 <= j <= |es|
      ensures known + NamesIn(es[..j]) == known + name + NamesIn(more[..j - 1])
    {
      assert es[..j][0] == es[0] && es[..j][1..] == more[..j - 1];
      Assoc(known, name, NamesIn(more[..j - 1]));
    }
    if Anchored(es, known) {
      NoDupFront(known + name, NamesIn(more));
      if es[0].AliasEvent? {
        assert es[0].anchor in known + NamesIn(es[..0]);
      }
      forall j | 0 <= j < |more| && more[j].AliasEvent?
        ensures more[j].anchor in known + name + NamesIn(more[..j])
      {
        assert es[j + 1] == more[j];
      }
    }
    if (es[0].AliasEvent? ==> es[0].anchor in known) && NoDup(known + name) && Anchored(more, known + name) {
      forall j | 0 <= j < |es| && es[j].AliasEvent?
        ensures es[j].anchor in known + NamesIn(es[..j])
      {
        if j > 0 {
          assert more[j - 1] == es[j];
        }
      }
    }
  }

  lemma NoDupFront<T>(a: seq<T>, b: seq<T>)
    requires NoDup(a + b)
    ensures NoDup(a)
  {
    assert forall i :: 0 <= i < |a| ==> (a + b)[i] == a[i];
  }

  /** The open collections are nodes that can be filled. */
  ghost predicate Fits(l: Loader) {
    forall k :: 0 <= k < |l.ctx| ==> 1 <= l.ctx[k] <= |l.nodes| && !l.nodes[l.ctx[k] - 1].ScalarNode?
  }

  ghost function Opened(l: Loader): seq<bool>
    requires Fits(l)
  {
    seq(|l.ctx|, k requires 0 <= k < |l.ctx| => l.nodes[l.ctx[k] - 1].MappingNode?)
  }

  ghost function Anchors(aliases: seq<(Bytes, nat)>): seq<Bytes> {
    seq(|aliases|, k requires 0 <= k < |aliases| => aliases[k].0)
  }

  lemma {:induction false} FindKnown(aliases: seq<(Bytes, nat)>, a: Bytes)
    ensures Find(aliases, a).Some? <==> a in Anchors(aliases)
  {
    if aliases != [] {
      FindKnown(aliases[1..], a);
      assert Anchors(aliases) == [aliases[0].0] + Anchors(aliases[1..]);
    }
  }

  /** What an event does to the stack, when it is taken. */
  function Turned(e: Event, open: seq<bool>): seq<bool> {
    match e
    case SequenceStart(_, _, _) => open + [false]
    case MappingStart(_, _, _) => open + [true]
    case SequenceEnd => if open == [] then [] else open[..|open| - 1]
    case MappingEnd => if open == [] then [] else open[..|open| - 1]
    case _ => open
  }

  lemma BalancedStep(es: seq<Event>, open: seq<bool>)
    requires es != []
    ensures Balanced(es, open) <==> Balanced([es[0]], open) && Balanced(es[1..], Turned(es[0], open))
  {
    assert [es[0]][1..] == [];
  }

  /** A child joins the innermost collection, and the stack is as it was. */
  lemma ChildJoins(nodes: seq<Node>, ctx: seq<nat>, index: nat)
    requires forall k :: 0 <= k < |ctx| ==> 1 <= ctx[k] <= |nodes| && !nodes[ctx[k] - 1].ScalarNode?
    ensures NodeAdd(nodes, ctx, index).Some?
    ensures var after := NodeAdd(nodes, ctx, index).value;
      && |after| == |nodes|
      && forall i :: 0 <= i < |nodes| ==> after[i].ScalarNode? == nodes[i].ScalarNode? && after[i].MappingNode? == nodes[i].MappingNode?
  {
  }

  lemma NewAccepts(l: Loader, n: Node, name: Option<Bytes>)
    requires Fits(l)
    ensures NewNode(l, n, name).Some? <==> name == None || name.value !in Anchors(l.aliases)
    ensures NewNode(l, n, name).Some? ==> var k := NewNode(l, n, name).value;
      && Fits(k) && Opened(k) == Opened(l) && k.ctx == l.ctx && |k.nodes| == |l.nodes| + 1
      && k.nodes[|l.nodes|].ScalarNode? == n.ScalarNode? && k.nodes[|l.nodes|].MappingNode? == n.MappingNode?
      && Anchors(k.aliases) == Anchors(l.aliases) + if name == None then [] else [name.value]
  {
    if name.Some? {
      FindKnown(l.aliases, name.value);
    }
    ChildJoins(l.nodes + [n], l.ctx, |l.nodes| + 1);
    hide NodeAdd;
  }

  lemma Opens(k: Loader)
    requires Fits(k) && k.nodes != [] && !k.nodes[|k.nodes| - 1].ScalarNode?
    ensures var o := k.(ctx := k.ctx + [|k.nodes|]); Fits(o) && Opened(o) == Opened(k) + [k.nodes[|k.nodes| - 1].MappingNode?]
  {
  }

  lemma Closes(l: Loader)
    requires Fits(l) && l.ctx != []
    ensures var c := l.(ctx := l.ctx[..|l.ctx| - 1]); Fits(c) && Opened(c) == Opened(l)[..|l.ctx| - 1]
    ensures Top(l).Some? && Top(l).value.MappingNode? == Opened(l)[|l.ctx| - 1] && !Top(l).value.ScalarNode?
  {
  }

  lemma BalancedOne(e: Event, open: seq<bool>)
    ensures Balanced([e], open) <==>
      if e.SequenceEnd? then open != [] && !open[|open| - 1]
      else if e.MappingEnd? then open != [] && open[|open| - 1]
      else !e.DocumentStart? && !e.DocumentEnd?
  {
    assert [e][1..] == [];
  }

  lemma StepAccepts(l: Loader, e: Event)
    requires Fits(l)
    ensures Step(l, e).Some? <==>
      && Balanced([e], Opened(l)) && (e.AliasEvent? ==> e.anchor in Anchors(l.aliases))
      && forall a <- NameOf(e) :: a !in Anchors(l.aliases)
    ensures Step(l, e).Some? ==> var k := Step(l, e).value;
      Fits(k) && Opened(k) == Turned(e, Opened(l)) && Anchors(k.aliases) == Anchors(l.aliases) + NameOf(e)
  {
    BalancedOne(e, Opened(l));
    assert Anchors(l.aliases) + [] == Anchors(l.aliases);
    match e {
      case AliasEvent(anchor) =>
        FindKnown(l.aliases, anchor);
        ChildJoins(l.nodes, l.ctx, if Find(l.aliases, anchor).Some? then Find(l.aliases, anchor).value else 0);
        hide NodeAdd;
      case ScalarEvent(name, tag, value, style) =>
        NewAccepts(l, ScalarNode(TagOr(tag, DEFAULT_SCALAR_TAG), value, style), name);
        hide NewNode, Fits, Opened, Anchors, TagOr;
      case SequenceStart(name, tag, style) => StartAccepts(l, SequenceNode(TagOr(tag, DEFAULT_SEQUENCE_TAG), style, []), name, e);
      case MappingStart(name, tag, style) => StartAccepts(l, MappingNode(TagOr(tag, DEFAULT_MAPPING_TAG), style, []), name, e);
      case SequenceEnd => if l.ctx != [] { Closes(l); }
      case MappingEnd => if l.ctx != [] { Closes(l); }
      case _ =>
    }
  }

  lemma StartAccepts(l: Loader, n: Node, name: Option<Bytes>, e: Event)
    requires Fits(l) && !n.ScalarNode? && Step(l, e) == Open(NewNode(l, n, name)) && IsNode(e) && e.name == name
    requires if n.MappingNode? then e.MappingStart? else e.SequenceStart?
    ensures Step(l, e).Some? <==> forall a <- NameOf(e) :: a !in Anchors(l.aliases)
    ensures Step(l, e).Some? ==> var k := Step(l, e).value;
      Fits(k) && Opened(k) == Turned(e, Opened(l)) && Anchors(k.aliases) == Anchors(l.aliases) + NameOf(e)
  {
    NewAccepts(l, n, name);
    hide NewNode, Step, Anchors;
    if NewNode(l, n, name).Some? {
      Opens(NewNode(l, n, name).value);
      hide Fits, Opened;
    }
  }

  lemma {:induction false} AllAccepted(l: Loader, es: seq<Event>)
    requires Fits(l) && NoDup(Anchors(l.aliases))
    ensures LoadAll(l, es).Some? <==> Balanced(es, Opened(l)) && Anchored(es, Anchors(l.aliases))
    decreases |es|
  {
    if es == [] {
      assert Anchors(l.aliases) + [] == Anchors(l.aliases);
    } else {
      StepAccepts(l, es[0]);
      BalancedStep(es, Opened(l));
      AnchoredStep(es, Anchors(l.aliases));
      NameNew(Anchors(l.aliases), es[0]);
      hide Step, Balanced, Anchored, Turned, NameOf, Fits, Opened;
      if Step(l, es[0]).Some? {
        AllAccepted(Step(l, es[0]).value, es[1..]);
      }
    }
  }

  lemma NameNew(known: seq<Bytes>, e: Event)
    requires NoDup(known)
    ensures NoDup(known + NameOf(e)) <==> forall a <- NameOf(e) :: a !in known
  {
    var name := NameOf(e);
    var all := known + name;
    if name == [] {
      assert all == known;
    } else {
      assert all[|known|] == name[0] && forall i :: 0 <= i < |known| ==> all[i] == known[i];
      if name[0] in known {
        var i :| 0 <= i < |known| && known[i] == name[0];
        assert all[i] == all[|known|];
      } else {
        assert forall i, j :: 0 <= i < j < |all| ==> all[i] != all[j];
      }
      assert forall a <- name :: a == name[0];
    }
  }

  // ---------------------------------------------------------------- whole documents

  /** The document ends at event `k`, and what is inside can be composed. */
  ghost predicate Composable(es: seq<Event>, k: nat) {
    1 <= k < |es| && es[0].DocumentStart? && es[k].DocumentEnd? && Balanced(es[1..k], []) && Anchored(es[1..k], [])
  }

  lemma {:induction false} EndsSomewhere(l: Loader, es: seq<Event>) returns (k: nat)
    requires LoadNodes(l, es).Some?
    ensures k < |es| && es[k].DocumentEnd? && LoadAll(l, es[..k]).Some?
    ensures LoadNodes(l, es) == Some((LoadAll(l, es[..k]).value, es[k].implicit))
    decreases |es|
  {
    if es[0].DocumentEnd? {
      k := 0;
    } else {
      var j := EndsSomewhere(Step(l, es[0]).value, es[1..]);
      k := j + 1;
      assert es[..k][0] == es[0] && es[..k][1..] == es[1..][..j];
    }
  }

  lemma {:induction false} LoadsUpTo(l: Loader, es: seq<Event>, k: nat)
    requires k < |es| && es[k].DocumentEnd? && LoadAll(l, es[..k]).Some?
    ensures LoadNodes(l, es) == Some((LoadAll(l, es[..k]).value, es[k].implicit))
    decreases k
  {
    if k > 0 {
      assert es[..k][0] == es[0] && es[..k][1..] == es[1..][..k - 1];
      LoadsUpTo(Step(l, es[0]).value, es[1..], k - 1);
    }
  }

  /**
   A stream gives a document exactly when the collections in it are balanced, its anchors are distinct
   and its aliases known.  The document has a node for each node event, in order, and each is what its
   event says.
   */
  lemma StreamLoads(es: seq<Event>)
    ensures Load(es).Some? <==> exists k: nat :: Composable(es, k)
    ensures Load(es).Some? ==> exists k: nat :: Composable(es, k) && var (d, ns) := (Load(es).value, NodeEvents(es[1..k]));
      && d.startImplicit == es[0].implicit && d.endImplicit == es[k].implicit && |d.nodes| == |ns|
      && forall i :: 0 <= i < |ns| ==> Describes(ns[i], d.nodes[i])
  {
    var l := Loader([], [], []);
    assert Opened(l) == [] && Anchors(l.aliases) == [];
    if es != [] && es[0].DocumentStart? {
      if Load(es).Some? {
        var j := EndsSomewhere(l, es[1..]);
        var k := j + 1;
        assert es[1..][..j] == es[1..k];
        AllAccepted(l, es[1..k]);
        AllDescribed(l, es[1..k]);
        assert Composable(es, k);
      }
      if k: nat :| Composable(es, k) {
        assert es[1..][..k - 1] == es[1..k];
        AllAccepted(l, es[1..k]);
        LoadsUpTo(l, es[1..], k - 1);
      }
    }
  }
}
