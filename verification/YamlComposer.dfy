/** The composer as the source runs it: one turn of a loop for each event, over three growing stacks. */
module YamlComposer {
  import opened ByteOrder
  import opened Options
  import opened YamlGraph
  import opened YamlLoad
  import opened YamlRoundTrip
  import opened YamlDump

  class Composer {
    var nodes: seq<Node>
    var aliases: seq<(Bytes, nat)>
    var ctx: seq<nat>

    constructor ()
      ensures State() == Loader([], [], [])
    {
      nodes, aliases, ctx := [], [], [];
    }

    ghost function State(): Loader
      reads this
    {
      Loader(nodes, aliases, ctx)
    }

    /** The node of an anchor: the first entry that has it. */
    method FindAlias(anchor: Bytes) returns (r: Option<nat>)
      ensures r == Find(aliases, anchor)
    {
      for k := 0 to |aliases|
        invariant Find(aliases, anchor) == Find(aliases[k..], anchor)
      {
        if aliases[k].0 == anchor {
          return Some(aliases[k].1);
        }
        assert aliases[k..][1..] == aliases[k + 1..];
      }
      return None;
    }

    method RegisterAnchor(index: nat, anchor: Option<Bytes>) returns (ok: bool)
      modifies this`aliases
      ensures ok <==> Register(old(aliases), index, anchor).Some?
      ensures aliases == if ok then Register(old(aliases), index, anchor).value else old(aliases)
    {
      if anchor == None {
        return true;
      }
      var r := FindAlias(anchor.value);
      if r.Some? {
        return false;
      }
      aliases := aliases + [(anchor.value, index)];
      return true;
    }

    /** The node joins the collection on top of the stack; the root joins nothing. */
    method AddNode(index: nat) returns (ok: bool)
      modifies this`nodes
      ensures ok <==> NodeAdd(old(nodes), ctx, index).Some?
      ensures nodes == if ok then NodeAdd(old(nodes), ctx, index).value else old(nodes)
    {
      if ctx == [] {
        return true;
      }
      var p := ctx[|ctx| - 1];
      if p == 0 || p > |nodes| {
        return false;
      }
      match nodes[p - 1]
      case ScalarNode(_, _, _) => return false;
      case SequenceNode(tag, style, items) =>
        nodes := nodes[p - 1 := SequenceNode(tag, style, items + [index])];
        return true;
      case MappingNode(tag, style, pairs) =>
        var last := |pairs| - 1;
        if pairs != [] && pairs[last].0 != 0 && pairs[last].1 == 0 {
          nodes := nodes[p - 1 := MappingNode(tag, style, pairs[last := (pairs[last].0, index)])];
        } else {
          nodes := nodes[p - 1 := MappingNode(tag, style, pairs + [(index, 0)])];
        }
        return true;
    }

    method LoadAlias(anchor: Bytes) returns (ok: bool)
      modifies this
      ensures ok <==> Step(old(State()), AliasEvent(anchor)).Some?
      ensures ok ==> Step(old(State()), AliasEvent(anchor)) == Some(State())
    {
      var r := FindAlias(anchor);
      if r == None {
        return false;
      }
      ok := AddNode(r.value);
    }

    /** The end of `load_scalar`, `load_sequence` and `load_mapping`. */
    method LoadNode(n: Node, name: Option<Bytes>) returns (ok: bool)
      modifies this
      ensures ok <==> NewNode(old(State()), n, name).Some?
      ensures ok ==> NewNode(old(State()), n, name) == Some(State())
    {
      nodes := nodes + [n];
      var index := |nodes|;
      ok := RegisterAnchor(index, name);
      if ok {
        ok := AddNode(index);
      }
    }

    method LoadEvent(e: Event) returns (ok: bool)
      modifies this
      ensures ok <==> Step(old(State()), e).Some?
      ensures ok ==> Step(old(State()), e) == Some(State())
    {
      match e
      case AliasEvent(anchor) =>
        ok := LoadAlias(anchor);
      case ScalarEvent(name, tag, value, style) =>
        ok := LoadNode(ScalarNode(TagOr(tag, DEFAULT_SCALAR_TAG), value, style), name);
      case SequenceStart(name, tag, style) =>
        ok := LoadNode(SequenceNode(TagOr(tag, DEFAULT_SEQUENCE_TAG), style, []), name);
        if ok {
          ctx := ctx + [|nodes|];
        }
      case MappingStart(name, tag, style) =>
        ok := LoadNode(MappingNode(TagOr(tag, DEFAULT_MAPPING_TAG), style, []), name);
        if ok {
          ctx := ctx + [|nodes|];
        }
      case SequenceEnd =>
        ok := LoadEnd(false);
      case MappingEnd =>
        ok := LoadEnd(true);
      case _ =>
        return false;
    }

    /** The innermost collection is complete. */
    method LoadEnd(mapping: bool) returns (ok: bool)
      modifies this`ctx
      ensures ok <==> Step(old(State()), if mapping then MappingEnd else SequenceEnd).Some?
      ensures ok ==> Step(old(State()), if mapping then MappingEnd else SequenceEnd) == Some(State())
    {
      if ctx == [] {
        return false;
      }
      var p := ctx[|ctx| - 1];
      if p == 0 || p > |nodes| || !(if mapping then nodes[p - 1].MappingNode? else nodes[p - 1].SequenceNode?) {
        return false;
      }
      ctx := ctx[..|ctx| - 1];
      return true;
    }

    /** `load_document`: every event until the end of the document. */
    method LoadDocument(es: seq<Event>) returns (r: Option<Document>)
      requires State() == Loader([], [], [])
      modifies this
      ensures r == Load(es)
    {
      if es == [] || !es[0].DocumentStart? {
        return None;
      }
      var k := 1;
      while k < |es|
        invariant 1 <= k <= |es| && LoadNodes(Loader([], [], []), es[1..]) == LoadNodes(State(), es[k..])
      {
        if es[k].DocumentEnd? {
          return Some(Document(nodes, es[0].implicit, es[k].implicit));
        }
        var ok := LoadEvent(es[k]);
        if !ok {
          return None;
        }
        assert es[k..][1..] == es[k + 1..];
        k := k + 1;
      }
      return None;
    }
  }
}
