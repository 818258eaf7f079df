/** The composer: building a document from the events of a parser. */
module YamlLoad {
  import opened ByteOrder
  import opened Options
  import opened YamlGraph

  datatype Event =
    | AliasEvent(anchor: Bytes)
    | ScalarEvent(name: Option<Bytes>, tag: Option<Bytes>, value: Bytes, style: nat)
    | SequenceStart(name: Option<Bytes>, tag: Option<Bytes>, style: nat)
    | SequenceEnd
    | MappingStart(name: Option<Bytes>, tag: Option<Bytes>, style: nat)
    | MappingEnd
    | DocumentStart(implicit: bool)
    | DocumentEnd(implicit: bool)

  /** `aliases` are the anchors seen, with their nodes; `ctx` are the collections being filled. */
  datatype Loader = Loader(nodes: seq<Node>, aliases: seq<(Bytes, nat)>, ctx: seq<nat>)

  /** "tag:yaml.org,2002:str", ":seq" and ":map". */
  const YAML_TAG: Bytes := [116, 97, 103, 58, 121, 97, 109, 108, 46, 111, 114, 103, 44, 50, 48, 48, 50, 58]
  const DEFAULT_SCALAR_TAG: Bytes := YAML_TAG + [115, 116, 114]
  const DEFAULT_SEQUENCE_TAG: Bytes := YAML_TAG + [115, 101, 113]
  const DEFAULT_MAPPING_TAG: Bytes := YAML_TAG + [109, 97, 112]

  /** A missing tag and the non-specific tag "!" mean the default one. */
  function TagOr(tag: Option<Bytes>, default: Bytes): Bytes {
    if tag == None || tag.value == [33] then default else tag.value
  }

  /** The entry of an anchor. */
  function Find(aliases: seq<(Bytes, nat)>, anchor: Bytes): (r: Option<nat>)
  {
    if aliases == [] then None
    else if aliases[0].0 == anchor then Some(aliases[0].1)
    else Find(aliases[1..], anchor)
  }

  /** `register_anchor`; a second use of the anchor is an error. */
  function Register(aliases: seq<(Bytes, nat)>, index: nat, anchor: Option<Bytes>): Option<seq<(Bytes, nat)>> {
    match anchor
    case None => Some(aliases)
    case Some(a) => if Find(aliases, a).Some? then None else Some(aliases + [(a, index)])
  }

  /** A child joins a collection: as an item, as the value of a waiting key, or as a new key. */
  function AddChild(n: Node, index: nat): Node {
    match n
    case ScalarNode(_, _, _) => n
    case SequenceNode(tag, style, items) => SequenceNode(tag, style, items + [index])
    case MappingNode(tag, style, pairs) =>
      var last := |pairs| - 1;
      if pairs != [] && pairs[last].0 != 0 && pairs[last].1 == 0 then
        MappingNode(tag, style, pairs[last := (pairs[last].0, index)])
      else
        MappingNode(tag, style, pairs + [(index, 0)])
  }

  /** `load_node_add`; the source asserts that the parent is a collection. */
  function NodeAdd(nodes: seq<Node>, ctx: seq<nat>, index: nat): Option<seq<Node>> {
    if ctx == [] then Some(nodes) else
    var p := ctx[|ctx| - 1];
    if p == 0 || p > |nodes| || nodes[p - 1].ScalarNode? then None
    else Some(nodes[p - 1 := AddChild(nodes[p - 1], index)])
  }

  /** A node with its anchor registered and its parent told. */
  function NewNode(l: Loader, n: Node, anchor: Option<Bytes>): Option<Loader> {
    var index := |l.nodes| + 1;
    match Register(l.aliases, index, anchor)
    case None => None
    case Some(aliases) =>
      match NodeAdd(l.nodes + [n], l.ctx, index)
      case None => None
      case Some(nodes) => Some(Loader(nodes, aliases, l.ctx))
  }

  function Open(l: Option<Loader>): Option<Loader> {
    match l
    case None => None
    case Some(k) => Some(k.(ctx := k.ctx + [|k.nodes|]))
  }

  /** The collection being filled. */
  function Top(l: Loader): Option<Node> {
    if l.ctx == [] then None else
    var p := l.ctx[|l.ctx| - 1];
    if 1 <= p <= |l.nodes| then Some(l.nodes[p - 1]) else None
  }

  /** One turn of the loop in `load_nodes`. */
  function Step(l: Loader, e: Event): Option<Loader> {
    match e
    case AliasEvent(anchor) =>
      (match Find(l.aliases, anchor)
       case None => None
       case Some(index) =>
         match NodeAdd(l.nodes, l.ctx, index)
         case None => None
         case Some(nodes) => Some(l.(nodes := nodes)))
    case ScalarEvent(name, tag, value, style) => NewNode(l, ScalarNode(TagOr(tag, DEFAULT_SCALAR_TAG), value, style), name)
    case SequenceStart(name, tag, style) => Open(NewNode(l, SequenceNode(TagOr(tag, DEFAULT_SEQUENCE_TAG), style, []), name))
    case MappingStart(name, tag, style) => Open(NewNode(l, MappingNode(TagOr(tag, DEFAULT_MAPPING_TAG), style, []), name))
    case SequenceEnd => if Top(l).Some? && Top(l).value.SequenceNode? then Some(l.(ctx := l.ctx[..|l.ctx| - 1])) else None
    case MappingEnd => if Top(l).Some? && Top(l).value.MappingNode? then Some(l.(ctx := l.ctx[..|l.ctx| - 1])) else None
    case _ => None
  }

  function LoadAll(l: Loader, es: seq<Event>): Option<Loader>
    decreases |es|
  {
    if es == [] then Some(l) else
    match Step(l, es[0])
    case None => None
    case Some(k) => LoadAll(k, es[1..])
  }

  lemma {:induction false} LoadJoin(l: Loader, k: Loader, s: seq<Event>, t: seq<Event>)
    requires LoadAll(l, s) == Some(k)
    ensures LoadAll(l, s + t) == LoadAll(k, t)
    decreases |s|
  {
    if s == [] {
      assert s + t == t;
    } else {
      assert (s + t)[0] == s[0] && (s + t)[1..] == s[1..] + t;
      LoadJoin(Step(l, s[0]).value, k, s[1..], t);
    }
  }

  // ---------------------------------------------------------------- filling a collection

  function AddAll(n: Node, ids: seq<nat>): Node {
    if ids == [] then n else AddChild(AddAll(n, ids[..|ids| - 1]), ids[|ids| - 1])
  }

  /** The node as it is pushed: its tag read, without children. */
  function Bare(n: Node): Node {
    match n
    case ScalarNode(tag, value, style) => ScalarNode(TagOr(Some(tag), DEFAULT_SCALAR_TAG), value, style)
    case SequenceNode(tag, style, _) => SequenceNode(TagOr(Some(tag), DEFAULT_SEQUENCE_TAG), style, [])
    case MappingNode(tag, style, _) => MappingNode(TagOr(Some(tag), DEFAULT_MAPPING_TAG), style, [])
  }

  /** Filling a sequence gives the items, in order. */
  lemma {:induction false} FillSequence(tag: Bytes, style: nat, ids: seq<nat>)
    ensures AddAll(SequenceNode(tag, style, []), ids) == SequenceNode(tag, style, ids)
  {
    if ids != [] {
      var m := |ids| - 1;
      FillSequence(tag, style, ids[..m]);
      var n := AddAll(SequenceNode(tag, style, []), ids[..m]);
      assert AddChild(n, ids[m]) == SequenceNode(tag, style, ids[..m] + [ids[m]]);
      assert ids[..m] + [ids[m]] == ids;
    }
  }

  /** Filling a mapping pairs every key with the value that follows it. */
  lemma {:induction false} FillMapping(tag: Bytes, style: nat, pairs: seq<(nat, nat)>)
    requires forall k :: 0 <= k < |pairs| ==> pairs[k].0 != 0 && pairs[k].1 != 0
    ensures AddAll(MappingNode(tag, style, []), Flat(pairs)) == MappingNode(tag, style, pairs)
  {
    if pairs != [] {
      var m := |pairs| - 1;
      var (init, ids) := (pairs[..m], Flat(pairs));
      FillMapping(tag, style, init);
      assert ids == Flat(init) + [pairs[m].0, pairs[m].1];
      assert ids[..|ids| - 1] == Flat(init) + [pairs[m].0];
      assert ids[..|ids| - 1][..|ids| - 2] == Flat(init);
      var half := AddChild(MappingNode(tag, style, init), pairs[m].0);
      assert half == MappingNode(tag, style, init + [(pairs[m].0, 0)]);
      assert half.pairs[m] == (pairs[m].0, 0);
      assert (init + [(pairs[m].0, 0)])[m := pairs[m]] == pairs;
    }
  }
}
