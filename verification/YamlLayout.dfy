/**
 How a document is laid out: for every event, the state in which the emitter takes it (which says
 what is written around it) and the indentation.  Both follow from where the node is in the tree;
 the emitter finds them with its stacks and its count of open flow collections.
 */
module YamlLayout {
  import opened Options
  import opened Sequences
  import opened YamlEmitter

  datatype Mark = Mark(state: State, indent: int)

  /** An event as the machine takes it; a first item or key comes with the indentation of its collection. */
  function MarkOf(m: Machine, e: Event): Mark {
    Mark(m.state, Opened(m, e).indent)
  }

  /** All the events, up to the first one that is not accepted. */
  function Marks(m: Machine, es: seq<Event>): seq<Mark>
    decreases |es|
  {
    if es == [] then [] else
    [MarkOf(m, es[0])] + match Step(m, es[0], Empty(es)) case None => [] case Some(k) => Marks(k, es[1..])
  }

  // ---------------------------------------------------------------- the layout of a tree

  /** Canonical form, and how far each level is indented. */
  datatype Style = Style(canonical: bool, step: nat)

  /** A collection is in flow style inside another such one, in canonical form, if it is asked for, and if it is empty. */
  ghost predicate InFlow(y: Style, outer: bool, e: Event, items: Forest) {
    outer || y.canonical || e.flow || items.Nil?
  }

  /** The outermost collection stands at the margin, or one step in when in flow style; inner ones one step further. */
  ghost function Deeper(y: Style, indent: int, flow: bool): int {
    if indent >= 0 then indent + y.step else if flow then y.step else 0
  }

  /** A key in one line: short, not a collection with items, and in canonical flow style none is. */
  ghost predicate OneLine(y: Style, flow: bool, key: Tree, e: Event) {
    e.short && !(flow && y.canonical) && (key.AliasTree? || key.ScalarTree? || key.items.Nil?)
  }

  ghost function ItemMark(flow: bool, first: bool, indent: int): Mark {
    Mark(if flow then (if first then FlowSequenceFirstItemState else FlowSequenceItemState)
         else if first then BlockSequenceFirstItemState else BlockSequenceItemState, indent)
  }

  ghost function KeyMark(flow: bool, first: bool, indent: int): Mark {
    Mark(if flow then (if first then FlowMappingFirstKeyState else FlowMappingKeyState)
         else if first then BlockMappingFirstKeyState else BlockMappingKeyState, indent)
  }

  ghost function ValueMark(flow: bool, oneLine: bool, indent: int): Mark {
    Mark(if flow then (if oneLine then FlowMappingSimpleValueState else FlowMappingValueState)
         else if oneLine then BlockMappingSimpleValueState else BlockMappingValueState, indent)
  }

  /**
   The events of a node behind its first one.  `flow`: it is inside a collection in flow style;
   `mapping`: it is a key or a value.  A block sequence in a mapping is not indented when it starts
   in the middle of a line.
   */
  ghost function NodeMarks(y: Style, t: Tree, es: seq<Event>, flow: bool, indent: int, mapping: bool): seq<Mark>
    requires Paired(t) && |es| == |Yield(t)|
    decreases t, 0
  {
    match t
    case AliasTree => []
    case ScalarTree => []
    case SequenceTree(f) =>
      var inner := InFlow(y, flow, es[0], f);
      ItemMarks(y, f, es[1..], inner, true, if !inner && mapping && es[1].midline && indent >= 0 then indent else Deeper(y, indent, inner))
    case MappingTree(f) =>
      var inner := InFlow(y, flow, es[0], f);
      PairMarks(y, f, es[1..], inner, true, Deeper(y, indent, inner))
  }

  /** The items of a sequence, and its end. */
  ghost function ItemMarks(y: Style, f: Forest, es: seq<Event>, flow: bool, first: bool, indent: int): seq<Mark>
    requires AllPaired(f) && |es| == |Yields(f)| + 1
    decreases f, 1
  {
    [ItemMark(flow, first, indent)] +
    match f
    case Nil => []
    case Cons(t, tail) =>
      var n := |Yield(t)|;
      NodeMarks(y, t, es[..n], flow, indent, false) + ItemMarks(y, tail, es[n..], flow, false, indent)
  }

  /** The keys and values of a mapping, and its end. */
  ghost function PairMarks(y: Style, f: Forest, es: seq<Event>, flow: bool, first: bool, indent: int): seq<Mark>
    requires AllPaired(f) && Size(f) % 2 == 0 && |es| == |Yields(f)| + 1
    decreases f, 2
  {
    [KeyMark(flow, first, indent)] + MorePairs(y, f, es, flow, indent)
  }

  ghost function MorePairs(y: Style, f: Forest, es: seq<Event>, flow: bool, indent: int): seq<Mark>
    requires AllPaired(f) && Size(f) % 2 == 0 && |es| == |Yields(f)| + 1
    decreases f, 1
  {
    if f.Nil? then [] else
    PairSplits(f);
    var k := |Yield(f.head)| + |Yield(f.tail.head)|;
    OnePair(y, f, es[..k], flow, indent) + PairMarks(y, f.tail.tail, es[k..], flow, false, indent)
  }

  /** A key, behind its first event, and its value. */
  ghost function OnePair(y: Style, f: Forest, es: seq<Event>, flow: bool, indent: int): seq<Mark>
    requires f.Cons? && f.tail.Cons? && Paired(f.head) && Paired(f.tail.head) && |es| == |Yield(f.head)| + |Yield(f.tail.head)|
    decreases f, 0
  {
    var n := |Yield(f.head)|;
    NodeMarks(y, f.head, es[..n], flow, indent, true)
    + [ValueMark(flow, OneLine(y, flow, f.head, es[0]), indent)]
    + NodeMarks(y, f.tail.head, es[n..], flow, indent, true)
  }

  lemma PairSplits(f: Forest)
    requires f.Cons? && AllPaired(f) && Size(f) % 2 == 0
    ensures f.tail.Cons? && Paired(f.head) && Paired(f.tail.head) && AllPaired(f.tail.tail) && Size(f.tail.tail) % 2 == 0
    ensures Yields(f) == Yield(f.head) + (Yield(f.tail.head) + Yields(f.tail.tail))
  {
  }

  /** Documents stand at the margin, which is -1. */
  ghost function DocumentMarks(y: Style, docs: Forest, es: seq<Event>, first: bool): seq<Mark>
    requires AllPaired(docs) && |es| == |YieldDocuments(docs)| + 1
    decreases docs
  {
    [Mark(if first then FirstDocumentStartState else DocumentStartState, -1)] +
    match docs
    case Nil => []
    case Cons(t, tail) =>
      var n := |Yield(t)|;
      [Mark(DocumentContentState, -1)] + NodeMarks(y, t, es[1..n + 1], false, -1, false) + [Mark(DocumentEndState, -1)]
      + DocumentMarks(y, tail, es[n + 2..], false)
  }

  // ---------------------------------------------------------------- the machine does the same

  function StyleOf(m: Machine): Style { Style(m.canonical, m.bestIndent) }

  /** In flow style exactly inside some open flow collection. */
  ghost predicate Level(m: Machine, flow: bool) {
    m.flowLevel >= 0 && (flow <==> m.flowLevel > 0)
  }

  lemma MarksStep(m: Machine, es: seq<Event>, k: Machine)
    requires es != [] && Step(m, es[0], Empty(es)) == Some(k)
    ensures Marks(m, es) == [MarkOf(m, es[0])] + Marks(k, es[1..])
  {
    hide Step, Opened;
  }

  /** A collection that has just begun: the first mark is its own, the others are those of the opened machine. */
  lemma MarksOpened(m: Machine, es: seq<Event>)
    requires es != []
    ensures var q := Opened(m, es[0]);
      Marks(q, es) != [] && Marks(m, es) == [Mark(m.state, q.indent)] + Marks(q, es)[1..] && Marks(q, es)[0] == Mark(q.state, q.indent)
  {
    OpenedTwice(m, es[0]);
    StepSame(m, Opened(m, es[0]), es[0], Empty(es));
    hide Step, Opened;
  }

  /** What the events say about an empty collection. */
  lemma EmptyIs(f: Forest, open: Kind, close: Kind, es: seq<Event>, rest: seq<Event>)
    requires Kinds(es) == [open] + Yields(f) + [close]
    requires (open.SequenceStart? && close.SequenceEnd?) || (open.MappingStart? && close.MappingEnd?)
    ensures |es| >= 2 && es[0].kind == open && (Empty(es + rest) <==> f.Nil?)
  {
    var ks := [open] + Yields(f) + [close];
    assert |es| == |ks| && es[0].kind == ks[0] && es[1].kind == ks[1];
    if f.Cons? {
      FirstIsNode(f.head);
      assert Yields(f)[0] == Yield(f.head)[0] && ks[1] == Yields(f)[0];
    }
  }

  lemma FirstIsNode(t: Tree)
    ensures IsNode(Yield(t)[0])
  {
  }

  /** A key is simple for the machine when it goes into one line. */
  lemma OneLineIs(y: Style, t: Tree, flow: bool, es: seq<Event>, rest: seq<Event>)
    requires Kinds(es) == Yield(t)
    ensures es != [] && (OneLine(y, flow, t, es[0]) <==> SimpleKey(es[0], Empty(es + rest)) && !(flow && y.canonical))
  {
    if t.SequenceTree? || t.MappingTree? {
      var (open, close) := if t.SequenceTree? then (SequenceStart, SequenceEnd) else (MappingStart, MappingEnd);
      EmptyIs(t.items, open, close, es, rest);
    } else {
      OneKind(es, if t.AliasTree? then Alias else Scalar);
    }
  }

  /** The machine after a sequence or mapping has been begun. */
  lemma BeginsSequence(n: Machine, e: Event, mp: bool, f: Forest, next: Event, flow: bool)
    requires n.states != [] && Level(n, flow) && e.kind.SequenceStart?
    ensures EmitNode(n, e, mp, f.Nil?).Some?
    ensures var (m, y, inner) := (EmitNode(n, e, mp, f.Nil?).value, StyleOf(n), InFlow(StyleOf(n), flow, e, f));
      var q := Opened(m, next);
      && SequenceState(q.state) && FlowState(q.state) == inner && StyleOf(q) == y && Level(q, inner)
      && Closed(q, inner).Some? && Like(Closed(q, inner).value, Return(n))
      && q.indent == (if !inner && mp && next.midline && n.indent >= 0 then n.indent else Deeper(y, n.indent, inner))
      && Mark(m.state, q.indent) == ItemMark(inner, true, q.indent)
  {
    EmitStart(n, e, mp, f.Nil?);
    OpenClose(EmitNode(n, e, mp, f.Nil?).value, next);
    hide Like, Closed, Return;
  }

  lemma BeginsMapping(n: Machine, e: Event, mp: bool, f: Forest, next: Event, flow: bool)
    requires n.states != [] && Level(n, flow) && e.kind.MappingStart?
    ensures EmitNode(n, e, mp, f.Nil?).Some?
    ensures var (m, y, inner) := (EmitNode(n, e, mp, f.Nil?).value, StyleOf(n), InFlow(StyleOf(n), flow, e, f));
      var q := Opened(m, next);
      && KeyState(q.state) && FlowState(q.state) == inner && StyleOf(q) == y && Level(q, inner)
      && Closed(q, inner).Some? && Like(Closed(q, inner).value, Return(n))
      && q.indent == Deeper(y, n.indent, inner) && Mark(m.state, q.indent) == KeyMark(inner, true, q.indent)
  {
    EmitStart(n, e, mp, f.Nil?);
    OpenClose(EmitNode(n, e, mp, f.Nil?).value, next);
    hide Like, Closed, Return;
  }

  lemma FirstItem(y: Style, f: Forest, es: seq<Event>, flow: bool, indent: int)
    requires AllPaired(f) && |es| == |Yields(f)| + 1
    ensures ItemMarks(y, f, es, flow, false, indent) != []
    ensures ItemMarks(y, f, es, flow, true, indent) == [ItemMark(flow, true, indent)] + ItemMarks(y, f, es, flow, false, indent)[1..]
  {
    hide NodeMarks;
  }

  lemma FirstKey(y: Style, f: Forest, es: seq<Event>, flow: bool, indent: int)
    requires AllPaired(f) && Size(f) % 2 == 0 && |es| == |Yields(f)| + 1
    ensures PairMarks(y, f, es, flow, false, indent) != []
    ensures PairMarks(y, f, es, flow, true, indent) == [KeyMark(flow, true, indent)] + PairMarks(y, f, es, flow, false, indent)[1..]
  {
    hide MorePairs, KeyMark;
  }

  lemma HeadOff<T>(a: seq<T>, b: seq<T>, c: seq<T>, x: T)
    requires a == b + c && b != []
    ensures [x] + a[1..] == [x] + b[1..] + c
  {
  }

  /** What is alike up to the last context is in the same place. */
  lemma LikeSame(k: Machine, q: Machine, flow: bool)
    requires Like(k, q)
    ensures k.state == q.state && StyleOf(k) == StyleOf(q) && k.indent == q.indent && (Level(q, flow) ==> Level(k, flow))
    ensures Closed(q, flow).Some? ==> Closed(k, flow).Some? && Like(Closed(k, flow).value, Closed(q, flow).value)
  {
  }

  lemma LikeMore(a: Machine, b: Machine, c: Machine)
    requires Like(a, b) && Like(b, c)
    ensures Like(a, c) == true
  {
  }

  lemma PushSame(q: Machine, s: State, flow: bool)
    requires Level(q, flow)
    ensures Push(q, s).states != [] && Level(Push(q, s), flow) && StyleOf(Push(q, s)) == StyleOf(q) && Push(q, s).indent == q.indent
    ensures Return(Push(q, s)) == q.(state := s) && Level(q.(state := s), flow) && StyleOf(q.(state := s)) == StyleOf(q)
  {
  }

  lemma RegroupFive<T>(k: T, a: seq<T>, v: T, b: seq<T>, m: seq<T>)
    ensures [k] + (a + ([v] + (b + m))) == [k] + a + [v] + b + m
  {
  }

  lemma PairIs(y: Style, f: Forest, x: seq<Event>, v: seq<Event>, flow: bool, indent: int)
    requires f.Cons? && f.tail.Cons? && Paired(f.head) && Paired(f.tail.head) && x != []
    requires |x| == |Yield(f.head)| && |v| == |Yield(f.tail.head)|
    ensures OnePair(y, f, x + v, flow, indent) == NodeMarks(y, f.head, x, flow, indent, true)
      + [ValueMark(flow, OneLine(y, flow, f.head, x[0]), indent)] + NodeMarks(y, f.tail.head, v, flow, indent, true)
  {
    var es := x + v;
    assert es[..|x|] == x && es[|x|..] == v && es[0] == x[0];
    hide NodeMarks, Yield, Paired, OneLine, ValueMark;
  }

  /** Between items and between keys, the mark is the machine's own state. */
  lemma OwnMark(q: Machine, e: Event, flow: bool)
    requires FlowState(q.state) == flow
    ensures SequenceState(q.state) ==> MarkOf(q, e) == ItemMark(flow, false, q.indent)
    ensures KeyState(q.state) ==> MarkOf(q, e) == KeyMark(flow, false, q.indent)
  {
  }

  /** One node, wherever the machine expects one. */
  lemma {:induction false} NodeLaid(n: Machine, t: Tree, mp: bool, es: seq<Event>, rest: seq<Event>, flow: bool) returns (k: Machine)
    requires Paired(t) && Kinds(es) == Yield(t) && n.states != [] && Level(n, flow)
    ensures es != [] && IsNode(es[0].kind) && Like(k, Return(n)) && EmitNode(n, es[0], mp, Empty(es + rest)).Some?
    ensures Marks(EmitNode(n, es[0], mp, Empty(es + rest)).value, (es + rest)[1..])
         == NodeMarks(StyleOf(n), t, es, flow, n.indent, mp) + Marks(k, rest)
    decreases t, 0
  {
    if t.SequenceTree? {
      k := SequenceLaid(n, t, mp, es, rest, flow);
    } else if t.MappingTree? {
      k := MappingLaid(n, t, mp, es, rest, flow);
    } else {
      hide EmitNode, Kinds, Empty, Marks, Like;
      OneKind(es, if t.AliasTree? then Alias else Scalar);
      EmitLeaf(n, es[0], mp, Empty(es + rest));
      k := EmitNode(n, es[0], mp, Empty(es + rest)).value;
      assert (es + rest)[1..] == rest;
    }
  }

  lemma {:induction false} SequenceLaid(n: Machine, t: Tree, mp: bool, es: seq<Event>, rest: seq<Event>, flow: bool) returns (k: Machine)
    requires t.SequenceTree? && Paired(t) && Kinds(es) == Yield(t) && n.states != [] && Level(n, flow)
    ensures es != [] && IsNode(es[0].kind) && Like(k, Return(n)) && EmitNode(n, es[0], mp, Empty(es + rest)).Some?
    ensures Marks(EmitNode(n, es[0], mp, Empty(es + rest)).value, (es + rest)[1..])
         == NodeMarks(StyleOf(n), t, es, flow, n.indent, mp) + Marks(k, rest)
    decreases t.items, 2
  {
    hide Step, EmitNode, Closed, Opened, Kinds, Empty, Marks, Like, Level, Return, ItemMarks, ItemMark, Deeper, InFlow, FlowState, Yields;
    var (f, y) := (t.items, StyleOf(n));
    EmptyIs(f, SequenceStart, SequenceEnd, es, rest);
    Assoc([SequenceStart], Yields(f), [SequenceEnd]);
    FirstKind(es, SequenceStart, Yields(f) + [SequenceEnd]);
    var inner := es[1..];
    Tail(es[0], inner, rest);
    BeginsSequence(n, es[0], mp, f, inner[0], flow);
    var m := EmitNode(n, es[0], mp, f.Nil?).value;
    var fl := InFlow(y, flow, es[0], f);
    MarksOpened(m, inner + rest);
    var q := Opened(m, inner[0]);
    var k0 := ItemsLaid(q, f, inner, rest, fl);
    FirstItem(y, f, inner, fl, q.indent);
    HeadOff(Marks(q, inner + rest), ItemMarks(y, f, inner, fl, false, q.indent), Marks(k0, rest), Mark(m.state, q.indent));
    LikeMore(k0, Closed(q, fl).value, Return(n));
    k := k0;
  }

  lemma {:induction false} MappingLaid(n: Machine, t: Tree, mp: bool, es: seq<Event>, rest: seq<Event>, flow: bool) returns (k: Machine)
    requires t.MappingTree? && Paired(t) && Kinds(es) == Yield(t) && n.states != [] && Level(n, flow)
    ensures es != [] && IsNode(es[0].kind) && Like(k, Return(n)) && EmitNode(n, es[0], mp, Empty(es + rest)).Some?
    ensures Marks(EmitNode(n, es[0], mp, Empty(es + rest)).value, (es + rest)[1..])
         == NodeMarks(StyleOf(n), t, es, flow, n.indent, mp) + Marks(k, rest)
    decreases t.items, 2
  {
    hide Step, EmitNode, Closed, Opened, Kinds, Empty, Marks, Like, Level, Return, PairMarks, KeyMark, Deeper, InFlow, FlowState, Yields;
    var (f, y) := (t.items, StyleOf(n));
    EmptyIs(f, MappingStart, MappingEnd, es, rest);
    Assoc([MappingStart], Yields(f), [MappingEnd]);
    FirstKind(es, MappingStart, Yields(f) + [MappingEnd]);
    var inner := es[1..];
    Tail(es[0], inner, rest);
    BeginsMapping(n, es[0], mp, f, inner[0], flow);
    var m := EmitNode(n, es[0], mp, f.Nil?).value;
    var fl := InFlow(y, flow, es[0], f);
    MarksOpened(m, inner + rest);
    var q := Opened(m, inner[0]);
    var k0 := PairsLaid(q, f, inner, rest, fl);
    FirstKey(y, f, inner, fl, q.indent);
    HeadOff(Marks(q, inner + rest), PairMarks(y, f, inner, fl, false, q.indent), Marks(k0, rest), Mark(m.state, q.indent));
    LikeMore(k0, Closed(q, fl).value, Return(n));
    k := k0;
  }

  /** The rest of a sequence. */
  lemma {:induction false} ItemsLaid(q: Machine, f: Forest, es: seq<Event>, rest: seq<Event>, flow: bool) returns (k: Machine)
    requires AllPaired(f) && Kinds(es) == Yields(f) + [SequenceEnd]
    requires SequenceState(q.state) && FlowState(q.state) == flow && Level(q, flow) && Closed(q, flow).Some?
    ensures Like(k, Closed(q, flow).value) && Marks(q, es + rest) == ItemMarks(StyleOf(q), f, es, flow, false, q.indent) + Marks(k, rest)
    decreases f, 1
  {
    hide Step, EmitNode, Closed, Opened, Kinds, Empty, Marks, Like, Level, Return, Push, FlowState, SequenceState, MarkOf;
    hide NodeMarks, Yield, ItemMark, ItemMarks, StyleOf;
    assert es != [] by { assert |Kinds(es)| == |es|; }
    OwnMark(q, es[0], flow);
    StepItem(q, es[0], Empty(es + rest));
    match f
    case Nil =>
      assert Yields(f) + [SequenceEnd] == [SequenceEnd];
      OneKind(es, SequenceEnd);
      assert (es + rest)[1..] == rest;
      k := Closed(q, flow).value;
      MarksStep(q, es + rest, k);
      LikeSelf(k);
      LastItem(StyleOf(q), f, es, flow, q.indent);
    case Cons(t, tail) =>
      var (a, b) := (Yield(t), Yields(tail) + [SequenceEnd]);
      Assoc(a, Yields(tail), [SequenceEnd]);
      Cut(es, a, b);
      var (x, z) := (es[..|a|], es[|a|..]);
      Assoc(x, z, rest);
      PushSame(q, q.state, flow);
      var n := Push(q, q.state);
      var k1 := NodeLaid(n, t, false, x, z + rest, flow);
      MarksStep(q, es + rest, EmitNode(n, x[0], false, Empty(es + rest)).value);
      LikeSame(k1, q, flow);
      k := ItemsLaid(k1, tail, z, rest, flow);
      LikeMore(k, Closed(k1, flow).value, Closed(q, flow).value);
      ItemsJoin(StyleOf(q), f, x, z, flow, q.indent, Marks(k, rest));
  }

  lemma LastItem(y: Style, f: Forest, es: seq<Event>, flow: bool, indent: int)
    requires f.Nil? && |es| == 1
    ensures ItemMarks(y, f, es, flow, false, indent) == [ItemMark(flow, false, indent)]
  {
  }

  lemma ItemsJoin(y: Style, f: Forest, x: seq<Event>, z: seq<Event>, flow: bool, indent: int, m: seq<Mark>)
    requires f.Cons? && AllPaired(f) && |x| == |Yield(f.head)| && |z| == |Yields(f.tail)| + 1
    ensures |x + z| == |Yields(f)| + 1
    ensures ItemMarks(y, f, x + z, flow, false, indent) + m
         == [ItemMark(flow, false, indent)] + (NodeMarks(y, f.head, x, flow, indent, false) + (ItemMarks(y, f.tail, z, flow, false, indent) + m))
  {
    hide NodeMarks, Yield, Paired, ItemMark;
    assert (x + z)[..|x|] == x && (x + z)[|x|..] == z;
  }

  lemma LikeSelf(k: Machine)
    ensures Like(k, k) == true
  {
  }

  /** The rest of a mapping. */
  lemma {:induction false} PairsLaid(q: Machine, f: Forest, es: seq<Event>, rest: seq<Event>, flow: bool) returns (k: Machine)
    requires AllPaired(f) && Size(f) % 2 == 0 && Kinds(es) == Yields(f) + [MappingEnd]
    requires KeyState(q.state) && FlowState(q.state) == flow && Level(q, flow) && Closed(q, flow).Some?
    ensures Like(k, Closed(q, flow).value) && Marks(q, es + rest) == PairMarks(StyleOf(q), f, es, flow, false, q.indent) + Marks(k, rest)
    decreases f, 1
  {
    hide Step, EmitNode, Closed, Opened, Kinds, Empty, Marks, Like, Level, Return, Push, FlowState, KeyState, MarkOf;
    hide NodeMarks, Yield, KeyMark, ValueMark, OneLine;
    assert es != [] by { assert |Kinds(es)| == |es|; }
    OwnMark(q, es[0], flow);
    StepKey(q, es[0], Empty(es + rest));
    if f.Nil? {
      assert Yields(f) + [MappingEnd] == [MappingEnd];
      OneKind(es, MappingEnd);
      assert (es + rest)[1..] == rest;
      k := Closed(q, flow).value;
      MarksStep(q, es + rest, k);
      LikeSelf(k);
    } else {
      PairSplits(f);
      var (t, u, tail) := (f.head, f.tail.head, f.tail.tail);
      var (a, b, c) := (Yield(t), Yield(u), Yields(tail) + [MappingEnd]);
      Assoc(b, Yields(tail), [MappingEnd]);
      Assoc(a, b + Yields(tail), [MappingEnd]);
      Cut(es, a, b + c);
      var (x, yz) := (es[..|a|], es[|a|..]);
      Cut(yz, b, c);
      var (v, z) := (yz[..|b|], yz[|b|..]);
      Assoc(x, yz, rest);
      Assoc(v, z, rest);
      var k2 := PairLaid(q, f, x, v, z + rest, flow);
      LikeSame(k2, q, flow);
      k := PairsLaid(k2, tail, z, rest, flow);
      LikeMore(k, Closed(k2, flow).value, Closed(q, flow).value);
      PairsJoin(StyleOf(q), f, x, v, z, flow, q.indent, Marks(k, rest));
    }
  }

  lemma PairsJoin(y: Style, f: Forest, x: seq<Event>, v: seq<Event>, z: seq<Event>, flow: bool, indent: int, m: seq<Mark>)
    requires f.Cons? && AllPaired(f) && Size(f) % 2 == 0 && f.tail.Cons? && AllPaired(f.tail.tail) && Size(f.tail.tail) % 2 == 0
    requires |x| == |Yield(f.head)| && |v| == |Yield(f.tail.head)| && |z| == |Yields(f.tail.tail)| + 1 && |x + (v + z)| == |Yields(f)| + 1
    requires Paired(f.head) && Paired(f.tail.head)
    ensures PairMarks(y, f, x + (v + z), flow, false, indent) + m
         == [KeyMark(flow, false, indent)] + OnePair(y, f, x + v, flow, indent) + (PairMarks(y, f.tail.tail, z, flow, false, indent) + m)
  {
    hide OnePair, Yield, Yields, AllPaired, Paired, Size, KeyMark;
    var es := x + (v + z);
    assert es[..|x| + |v|] == x + v && es[|x| + |v|..] == z;
    assert MorePairs(y, f, es, flow, indent) == OnePair(y, f, x + v, flow, indent) + PairMarks(y, f.tail.tail, z, flow, false, indent);
  }

  /** A key and its value. */
  lemma {:induction false} PairLaid(q: Machine, f: Forest, x: seq<Event>, v: seq<Event>, rest: seq<Event>, flow: bool) returns (k: Machine)
    requires f.Cons? && f.tail.Cons? && Paired(f.head) && Paired(f.tail.head) && Kinds(x) == Yield(f.head) && Kinds(v) == Yield(f.tail.head)
    requires KeyState(q.state) && FlowState(q.state) == flow && Level(q, flow)
    ensures x != [] && Like(k, q)
    ensures var y := StyleOf(q);
      Marks(q, x + (v + rest)) == [KeyMark(flow, false, q.indent)] + OnePair(y, f, x + v, flow, q.indent) + Marks(k, rest)
    decreases f, 0
  {
    hide *;
    var (y, t, u, es) := (StyleOf(q), f.head, f.tail.head, x + (v + rest));
    OneLineIs(y, t, flow, x, v + rest);
    var (empty, value) := (Empty(es), ValueState(q, x[0], Empty(es)));
    PushSame(q, value, flow);
    var k1 := NodeLaid(Push(q, value), t, true, x, v + rest, flow);
    NodeOnlyKind(x[0].kind);
    OwnMark(q, x[0], flow);
    StepKey(q, x[0], empty);
    MarksStep(q, es, EmitNode(Push(q, value), x[0], true, empty).value);
    LikeSame(k1, q.(state := value), flow);
    PushSame(k1, q.state, flow);
    k := NodeLaid(Push(k1, q.state), u, true, v, rest, flow);
    StepValue(q, k1, x[0], empty, v[0], Empty(v + rest));
    MarksStep(k1, v + rest, EmitNode(Push(k1, q.state), v[0], true, Empty(v + rest)).value);
    ValueOwn(q, k1, x[0], empty, v[0], flow, y, t);
    LikeBack(k, k1, q, value);
    PairIs(y, f, x, v, flow, q.indent);
    RegroupFive(KeyMark(flow, false, q.indent), NodeMarks(y, t, x, flow, q.indent, true), ValueMark(flow, OneLine(y, flow, t, x[0]), q.indent),
                NodeMarks(y, u, v, flow, q.indent, true), Marks(k, rest));
  }

  lemma NodeOnlyKind(k: Kind)
    requires IsNode(k)
    ensures !k.MappingEnd? && !k.SequenceEnd?
  {
  }

  lemma ValueOwn(q: Machine, k: Machine, e0: Event, empty: bool, e: Event, flow: bool, y: Style, t: Tree)
    requires KeyState(q.state) && FlowState(q.state) == flow && y == StyleOf(q) && k.state == ValueState(q, e0, empty) && k.indent == q.indent
    requires OneLine(y, flow, t, e0) <==> SimpleKey(e0, empty) && !(flow && y.canonical)
    ensures MarkOf(k, e) == ValueMark(flow, OneLine(y, flow, t, e0), q.indent)
  {
    hide SimpleKey, OneLine;
  }

  lemma LikeBack(k: Machine, k1: Machine, q: Machine, value: State)
    requires Like(k1, q.(state := value)) && Like(k, k1.(state := q.state))
    ensures Like(k, q) == true
  {
  }

  // ---------------------------------------------------------------- a stream

  /** A machine between documents. */
  ghost predicate AtMargin(m: Machine, first: bool) {
    m.state == (if first then FirstDocumentStartState else DocumentStartState) && m.states == [] && m.indent == -1 && m.flowLevel == 0
  }

  /** One document, up to the next. */
  lemma DocumentLaid(m: Machine, t: Tree, x: seq<Event>, a: Event, b: Event, rest: seq<Event>, first: bool) returns (k: Machine)
    requires Paired(t) && Kinds(x) == Yield(t) && a.kind.DocumentStart? && b.kind.DocumentEnd? && AtMargin(m, first)
    ensures AtMargin(k, false) && StyleOf(k) == StyleOf(m)
    ensures var y := StyleOf(m);
      Marks(m, [a] + x + [b] + rest) == [Mark(m.state, -1)] + ([Mark(DocumentContentState, -1)] + NodeMarks(y, t, x, false, -1, false)
        + [Mark(DocumentEndState, -1)] + Marks(k, rest))
  {
    hide EmitNode, Kinds, Empty, Yield, Paired, Marks, NodeMarks, Like;
    var tail := x + ([b] + rest);
    var es := [a] + tail;
    Joined(a, x, b, rest);
    var m1 := m.(state := DocumentContentState);
    MarksStep(m, es, m1);
    PushSame(m1, DocumentEndState, false);
    var n := Push(m1, DocumentEndState);
    var k1 := NodeLaid(n, t, false, x, [b] + rest, false);
    MarksStep(m1, tail, EmitNode(n, x[0], false, Empty(tail)).value);
    LikeSame(k1, Return(n), false);
    LikeIs(k1, Return(n));
    k := k1.(state := DocumentStartState);
    MarksStep(k1, [b] + rest, k);
    RegroupFour(Mark(DocumentContentState, -1), NodeMarks(StyleOf(m), t, x, false, -1, false), Mark(DocumentEndState, -1), Marks(k, rest));
  }

  lemma Joined(a: Event, x: seq<Event>, b: Event, rest: seq<Event>)
    ensures var (tail, es) := (x + ([b] + rest), [a] + (x + ([b] + rest)));
      && [a] + x + [b] + rest == es && es[0] == a && es[1..] == tail && ([b] + rest)[0] == b && ([b] + rest)[1..] == rest
      && (x != [] ==> tail[0] == x[0])
  {
  }

  lemma RegroupFour<T>(c: T, a: seq<T>, e: T, m: seq<T>)
    ensures [c] + (a + ([e] + m)) == [c] + a + [e] + m
  {
  }

  lemma {:induction false} DocumentsLaid(m: Machine, docs: Forest, es: seq<Event>, first: bool)
    requires AllPaired(docs) && Kinds(es) == YieldDocuments(docs) + [StreamEnd] && AtMargin(m, first)
    ensures |es| == |YieldDocuments(docs)| + 1 && Marks(m, es) == DocumentMarks(StyleOf(m), docs, es, first)
    decreases docs
  {
    assert |es| == |Kinds(es)|;
    hide Kinds, Empty, Yield, NodeMarks, Marks;
    match docs
    case Nil =>
      assert YieldDocuments(docs) + [StreamEnd] == [StreamEnd];
      OneKind(es, StreamEnd);
      MarksStep(m, es, m.(state := EndState));
      NoMarks(m.(state := EndState), es[1..]);
    case Cons(t, tail) =>
      var x, a, b, rest := CutDocument(es, t, tail);
      var k := DocumentLaid(m, t, x, a, b, rest, first);
      DocumentsLaid(k, tail, rest, false);
      DocumentJoins(StyleOf(m), docs, x, a, b, rest, first);
  }

  lemma NoMarks(m: Machine, es: seq<Event>)
    requires es == []
    ensures Marks(m, es) == []
  {
  }

  lemma CutDocument(es: seq<Event>, t: Tree, tail: Forest) returns (x: seq<Event>, a: Event, b: Event, rest: seq<Event>)
    requires Kinds(es) == YieldDocuments(Cons(t, tail)) + [StreamEnd]
    ensures es == [a] + x + [b] + rest && Kinds(x) == Yield(t) && a.kind.DocumentStart? && b.kind.DocumentEnd?
    ensures Kinds(rest) == YieldDocuments(tail) + [StreamEnd]
  {
    hide Kinds, Yield;
    var (s, e) := (YieldDocuments(tail) + [StreamEnd], [DocumentEnd] + (YieldDocuments(tail) + [StreamEnd]));
    assert YieldDocuments(Cons(t, tail)) + [StreamEnd] == [DocumentStart] + (Yield(t) + e);
    FirstKind(es, DocumentStart, Yield(t) + e);
    a := es[0];
    Cut(es[1..], Yield(t), e);
    x := es[1..][..|Yield(t)|];
    var r := es[1..][|Yield(t)|..];
    FirstKind(r, DocumentEnd, s);
    b, rest := r[0], r[1..];
    assert es == [a] + (x + ([b] + rest));
  }

  lemma DocumentJoins(y: Style, docs: Forest, x: seq<Event>, a: Event, b: Event, rest: seq<Event>, first: bool)
    requires docs.Cons? && AllPaired(docs) && |x| == |Yield(docs.head)| && |rest| == |YieldDocuments(docs.tail)| + 1
    requires Paired(docs.head) && AllPaired(docs.tail) && |[a] + x + [b] + rest| == |YieldDocuments(docs)| + 1
    ensures DocumentMarks(y, docs, [a] + x + [b] + rest, first)
         == [Mark(if first then FirstDocumentStartState else DocumentStartState, -1)]
            + ([Mark(DocumentContentState, -1)] + NodeMarks(y, docs.head, x, false, -1, false) + [Mark(DocumentEndState, -1)]
               + DocumentMarks(y, docs.tail, rest, false))
  {
    hide Yield, NodeMarks, Paired;
    var es := [a] + x + [b] + rest;
    assert es[1..|x| + 1] == x && es[|x| + 2..] == rest;
  }

  /** Of every stream that is accepted, every event is laid out as its place in the tree says. */
  lemma LayoutIs(m: Machine, es: seq<Event>, docs: Forest)
    requires Initial(m) && Stream(es, docs)
    ensures |es| == |YieldDocuments(docs)| + 2
    ensures Marks(m, es) == [Mark(StreamStartState, m.indent)]
      + DocumentMarks(Style(m.canonical, if 2 <= m.bestIndent <= 9 then m.bestIndent else 2), docs, es[1..], true)
  {
    Assoc([StreamStart], YieldDocuments(docs), [StreamEnd]);
    FirstKind(es, StreamStart, YieldDocuments(docs) + [StreamEnd]);
    MarksStep(m, es, Started(m));
    hide Marks, DocumentMarks, YieldDocuments, Kinds;
    DocumentsLaid(Started(m), docs, es[1..], true);
  }
}
