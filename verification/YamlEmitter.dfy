/**
 The emitter as a pushdown machine: its state, the stacks of states and indents, and the flow
 level.  What depends on the text (the length of a key, the column) comes with the event.
 */
module YamlEmitter {
  import opened Options
  import opened Sequences

  datatype Kind =
    | StreamStart | StreamEnd | DocumentStart | DocumentEnd | Alias | Scalar
    | SequenceStart | SequenceEnd | MappingStart | MappingEnd

  /** `flow`: flow style was asked for; `short`: as a key it takes one line of at most 128 bytes; `midline`: no indentation was just written. */
  datatype Event = Event(kind: Kind, flow: bool, short: bool, midline: bool)

  datatype State =
    | StreamStartState | FirstDocumentStartState | DocumentStartState | DocumentContentState | DocumentEndState
    | FlowSequenceFirstItemState | FlowSequenceItemState
    | FlowMappingFirstKeyState | FlowMappingKeyState | FlowMappingSimpleValueState | FlowMappingValueState
    | BlockSequenceFirstItemState | BlockSequenceItemState
    | BlockMappingFirstKeyState | BlockMappingKeyState | BlockMappingSimpleValueState | BlockMappingValueState
    | EndState

  datatype Machine = Machine(state: State, states: seq<State>, indents: seq<int>, indent: int, bestIndent: nat, flowLevel: int,
                             canonical: bool, mapping: bool)

  // ---------------------------------------------------------------- one event

  function Push(m: Machine, s: State): Machine {
    m.(states := m.states + [s])
  }

  function Return(m: Machine): Machine
    requires m.states != []
  {
    m.(state := m.states[|m.states| - 1], states := m.states[..|m.states| - 1])
  }

  function IncreaseIndent(m: Machine, flow: bool, indentless: bool): Machine {
    var indent := if m.indent < 0 then (if flow then m.bestIndent else 0) else if indentless then m.indent else m.indent + m.bestIndent;
    m.(indents := m.indents + [m.indent], indent := indent)
  }

  function PopIndent(m: Machine): Machine
    requires m.indents != []
  {
    m.(indent := m.indents[|m.indents| - 1], indents := m.indents[..|m.indents| - 1])
  }

  /** `emit_node`; `empty` says that the next event ends the collection. */
  function EmitNode(m: Machine, e: Event, mapping: bool, empty: bool): Option<Machine>
    requires m.states != []
  {
    var n := m.(mapping := mapping);
    match e.kind
    case Alias => Some(Return(n))
    case Scalar => Some(Return(PopIndent(IncreaseIndent(n, true, false))))
    case SequenceStart =>
      Some(n.(state := if n.flowLevel != 0 || n.canonical || e.flow || empty then FlowSequenceFirstItemState else BlockSequenceFirstItemState))
    case MappingStart =>
      Some(n.(state := if n.flowLevel != 0 || n.canonical || e.flow || empty then FlowMappingFirstKeyState else BlockMappingFirstKeyState))
    case _ => None
  }

  /** `check_simple_key`. */
  predicate SimpleKey(e: Event, empty: bool) {
    match e.kind
    case Alias => e.short
    case Scalar => e.short
    case SequenceStart => empty && e.short
    case MappingStart => empty && e.short
    case _ => false
  }

  /** Entering a collection; elsewhere nothing happens. */
  function Opened(m: Machine, e: Event): Machine {
    match m.state
    case FlowSequenceFirstItemState => IncreaseIndent(m, true, false).(flowLevel := m.flowLevel + 1, state := FlowSequenceItemState)
    case FlowMappingFirstKeyState => IncreaseIndent(m, true, false).(flowLevel := m.flowLevel + 1, state := FlowMappingKeyState)
    case BlockSequenceFirstItemState => IncreaseIndent(m, false, m.mapping && e.midline).(state := BlockSequenceItemState)
    case BlockMappingFirstKeyState => IncreaseIndent(m, false, false).(state := BlockMappingKeyState)
    case _ => m
  }

  /** Leaving a collection. */
  function Closed(m: Machine, flow: bool): Option<Machine> {
    if m.indents == [] || m.states == [] then None
    else Some(Return(PopIndent(if flow then m.(flowLevel := m.flowLevel - 1) else m)))
  }

  function Started(m: Machine): Machine {
    m.(state := FirstDocumentStartState, indent := -1, bestIndent := if m.bestIndent < 2 || m.bestIndent > 9 then 2 else m.bestIndent)
  }

  /** The state machine on one event; None where the source reports an error. */
  function Step(m0: Machine, e: Event, empty: bool): Option<Machine> {
    var m := Opened(m0, e);
    match m.state
    case StreamStartState => if e.kind.StreamStart? then Some(Started(m)) else None
    case FirstDocumentStartState => EmitDocumentStart(m, e)
    case DocumentStartState => EmitDocumentStart(m, e)
    case DocumentContentState => EmitNode(Push(m, DocumentEndState), e, false, empty)
    case DocumentEndState => if e.kind.DocumentEnd? then Some(m.(state := DocumentStartState)) else None
    case FlowSequenceItemState =>
      if e.kind.SequenceEnd? then Closed(m, true) else EmitNode(Push(m, FlowSequenceItemState), e, false, empty)
    case BlockSequenceItemState =>
      if e.kind.SequenceEnd? then Closed(m, false) else EmitNode(Push(m, BlockSequenceItemState), e, false, empty)
    case FlowMappingKeyState =>
      if e.kind.MappingEnd? then Closed(m, true)
      else EmitNode(Push(m, if !m.canonical && SimpleKey(e, empty) then FlowMappingSimpleValueState else FlowMappingValueState), e, true, empty)
    case BlockMappingKeyState =>
      if e.kind.MappingEnd? then Closed(m, false)
      else EmitNode(Push(m, if SimpleKey(e, empty) then BlockMappingSimpleValueState else BlockMappingValueState), e, true, empty)
    case FlowMappingSimpleValueState => EmitNode(Push(m, FlowMappingKeyState), e, true, empty)
    case FlowMappingValueState => EmitNode(Push(m, FlowMappingKeyState), e, true, empty)
    case BlockMappingSimpleValueState => EmitNode(Push(m, BlockMappingKeyState), e, true, empty)
    case BlockMappingValueState => EmitNode(Push(m, BlockMappingKeyState), e, true, empty)
    case _ => None
  }

  function EmitDocumentStart(m: Machine, e: Event): Option<Machine> {
    if e.kind.DocumentStart? then Some(m.(state := DocumentContentState))
    else if e.kind.StreamEnd? then Some(m.(state := EndState))
    else None
  }

  /** The collection that starts with `es` ends at once. */
  predicate Empty(es: seq<Event>) {
    |es| >= 2 && ((es[0].kind.SequenceStart? && es[1].kind.SequenceEnd?) || (es[0].kind.MappingStart? && es[1].kind.MappingEnd?))
  }

  /** All the events, each with the next one in sight. */
  function Run(m: Machine, es: seq<Event>): Option<Machine>
    decreases |es|
  {
    if es == [] then Some(m) else
    match Step(m, es[0], Empty(es))
    case None => None
    case Some(k) => Run(k, es[1..])
  }

  function Continue(m: Option<Machine>, es: seq<Event>): Option<Machine> {
    match m
    case None => None
    case Some(k) => Run(k, es)
  }

  // ---------------------------------------------------------------- the grammar

  datatype Tree = AliasTree | ScalarTree | SequenceTree(items: Forest) | MappingTree(items: Forest)
  datatype Forest = Nil | Cons(head: Tree, tail: Forest)

  function Size(f: Forest): nat {
    match f
    case Nil => 0
    case Cons(_, tail) => 1 + Size(tail)
  }

  /** Mappings alternate keys and values. */
  predicate Paired(t: Tree) {
    match t
    case SequenceTree(f) => AllPaired(f)
    case MappingTree(f) => AllPaired(f) && Size(f) % 2 == 0
    case _ => true
  }

  predicate AllPaired(f: Forest) {
    match f
    case Nil => true
    case Cons(t, tail) => Paired(t) && AllPaired(tail)
  }

  /** The events of a node. */
  function Yield(t: Tree): (r: seq<Kind>)
    ensures r != []
  {
    match t
    case AliasTree => [Alias]
    case ScalarTree => [Scalar]
    case SequenceTree(f) => [SequenceStart] + Yields(f) + [SequenceEnd]
    case MappingTree(f) => [MappingStart] + Yields(f) + [MappingEnd]
  }

  function Yields(f: Forest): seq<Kind> {
    match f
    case Nil => []
    case Cons(t, tail) => Yield(t) + Yields(tail)
  }

  function YieldDocuments(f: Forest): seq<Kind> {
    match f
    case Nil => []
    case Cons(t, tail) => [DocumentStart] + Yield(t) + [DocumentEnd] + YieldDocuments(tail)
  }

  function Kinds(es: seq<Event>): (r: seq<Kind>)
    ensures |r| == |es|
  {
    seq(|es|, k requires 0 <= k < |es| => es[k].kind)
  }

  /** A stream: documents between the two stream events. */
  ghost predicate Stream(es: seq<Event>, docs: Forest) {
    AllPaired(docs) && Kinds(es) == [StreamStart] + YieldDocuments(docs) + [StreamEnd]
  }

  // ---------------------------------------------------------------- a node leaves the machine as it found it

  /** The same machine, up to the mark of the last context. */
  ghost predicate Like(a: Machine, b: Machine) {
    a == b.(mapping := a.mapping)
  }

  lemma RunOpened(m: Machine, es: seq<Event>)
    requires es != []
    ensures Run(m, es) == Run(Opened(m, es[0]), es)
  {
    OpenedTwice(m, es[0]);
    StepSame(m, Opened(m, es[0]), es[0], Empty(es));
    hide Step;
  }

  lemma OpenedTwice(m: Machine, e: Event)
    ensures Opened(Opened(m, e), e) == Opened(m, e)
  {
  }

  lemma StepSame(m: Machine, q: Machine, e: Event, empty: bool)
    requires Opened(m, e) == Opened(q, e)
    ensures Step(m, e, empty) == Step(q, e, empty)
  {
    hide Opened, EmitNode, Closed;
  }

  lemma RunStep(m: Machine, es: seq<Event>)
    requires es != []
    ensures Run(m, es) == Continue(Step(m, es[0], Empty(es)), es[1..])
  {
  }

  lemma KindsJoin(a: seq<Event>, b: seq<Event>)
    ensures Kinds(a + b) == Kinds(a) + Kinds(b)
  {
  }

  /** Cutting a list of events where the kinds are cut. */
  lemma Cut(es: seq<Event>, a: seq<Kind>, b: seq<Kind>)
    requires Kinds(es) == a + b
    ensures |a| <= |es| && Kinds(es[..|a|]) == a && Kinds(es[|a|..]) == b && es == es[..|a|] + es[|a|..]
  {
    var (x, y) := (es[..|a|], es[|a|..]);
    KindsJoin(x, y);
    assert es == x + y;
    assert Kinds(x) == (a + b)[..|a|] && Kinds(y) == (a + b)[|a|..];
  }

  predicate IsNode(k: Kind) {
    k.Alias? || k.Scalar? || k.SequenceStart? || k.MappingStart?
  }

  /** A collection entered and left again. */
  lemma OpenClose(n: Machine, e: Event)
    requires n.states != []
    requires n.state in {FlowSequenceFirstItemState, FlowMappingFirstKeyState, BlockSequenceFirstItemState, BlockMappingFirstKeyState}
    ensures var q := Opened(n, e);
      q.states == n.states && q.indents != [] && q.states != []
      && Closed(q, q.state in {FlowSequenceItemState, FlowMappingKeyState}) == Some(Return(n))
  {
    var q := Opened(n, e);
    assert q.indents == n.indents + [n.indent] && q.indents[..|n.indents|] == n.indents;
  }

  lemma OneKind(es: seq<Event>, x: Kind)
    requires Kinds(es) == [x]
    ensures es == [es[0]] && es[0].kind == x
  {
    assert |es| == 1 && Kinds(es)[0] == es[0].kind;
  }

  lemma FirstKind(es: seq<Event>, x: Kind, a: seq<Kind>)
    requires Kinds(es) == [x] + a
    ensures es != [] && es[0].kind == x && Kinds(es[1..]) == a && es == [es[0]] + es[1..]
  {
    assert Kinds(es)[0] == es[0].kind;
    Cut(es, [x], a);
  }

  lemma Tail(x: Event, es: seq<Event>, rest: seq<Event>)
    ensures ([x] + es + rest)[1..] == es + rest && ([x] + es + rest)[0] == x
  {
  }

  predicate SequenceState(s: State) {
    s.FlowSequenceItemState? || s.BlockSequenceItemState?
  }

  predicate KeyState(s: State) {
    s.FlowMappingKeyState? || s.BlockMappingKeyState?
  }

  predicate FlowState(s: State) {
    s.FlowSequenceItemState? || s.FlowMappingKeyState?
  }

  /** The state a key leaves behind. */
  function ValueState(q: Machine, e: Event, empty: bool): State {
    if q.state.FlowMappingKeyState? then
      (if !q.canonical && SimpleKey(e, empty) then FlowMappingSimpleValueState else FlowMappingValueState)
    else (if SimpleKey(e, empty) then BlockMappingSimpleValueState else BlockMappingValueState)
  }

  lemma StepItem(q: Machine, e: Event, empty: bool)
    requires SequenceState(q.state)
    ensures Step(q, e, empty) == if e.kind.SequenceEnd? then Closed(q, FlowState(q.state)) else EmitNode(Push(q, q.state), e, false, empty)
  {
    hide EmitNode, Closed;
  }

  lemma StepKey(q: Machine, e: Event, empty: bool)
    requires KeyState(q.state)
    ensures Step(q, e, empty) ==
      if e.kind.MappingEnd? then Closed(q, FlowState(q.state)) else EmitNode(Push(q, ValueState(q, e, empty)), e, true, empty)
  {
    hide EmitNode, Closed, SimpleKey;
  }

  /** After a key, whatever its form, comes a value, and then the next key. */
  lemma StepValue(q: Machine, k: Machine, e0: Event, empty0: bool, e: Event, empty: bool)
    requires KeyState(q.state) && k.state == ValueState(q, e0, empty0)
    ensures Step(k, e, empty) == EmitNode(Push(k, q.state), e, true, empty)
  {
    hide EmitNode, Closed, SimpleKey;
  }

  lemma EmitStart(n: Machine, e: Event, mp: bool, empty: bool)
    requires n.states != [] && (e.kind.SequenceStart? || e.kind.MappingStart?)
    ensures EmitNode(n, e, mp, empty).Some? && Like(EmitNode(n, e, mp, empty).value.(state := n.state), n)
    ensures EmitNode(n, e, mp, empty).value.state in
      if e.kind.SequenceStart? then {FlowSequenceFirstItemState, BlockSequenceFirstItemState}
      else {FlowMappingFirstKeyState, BlockMappingFirstKeyState}
  {
  }

  lemma EmitLeaf(n: Machine, e: Event, mp: bool, empty: bool)
    requires n.states != [] && (e.kind.Alias? || e.kind.Scalar?)
    ensures var m := EmitNode(n, e, mp, empty); m.Some? && Like(m.value, Return(n))
  {
  }

  /** One node, wherever the machine expects one: the stacks, the indent and the flow level come back as they were. */
  lemma {:induction false} EmitTree(n: Machine, t: Tree, mp: bool, es: seq<Event>, rest: seq<Event>) returns (k: Machine)
    requires Paired(t) && Kinds(es) == Yield(t) && n.states != []
    ensures es != [] && IsNode(es[0].kind)
    ensures Like(k, Return(n)) && Continue(EmitNode(n, es[0], mp, Empty(es + rest)), (es + rest)[1..]) == Run(k, rest)
    decreases t, 0
  {
    hide Step, Run, EmitNode, Closed, Opened, Kinds, Empty;
    if t.AliasTree? || t.ScalarTree? {
      OneKind(es, if t.AliasTree? then Alias else Scalar);
      EmitLeaf(n, es[0], mp, Empty(es + rest));
      k := EmitNode(n, es[0], mp, Empty(es + rest)).value;
      assert (es + rest)[1..] == rest;
    } else {
      var (f, open, close) := (t.items, if t.SequenceTree? then SequenceStart else MappingStart, if t.SequenceTree? then SequenceEnd else MappingEnd);
      Assoc([open], Yields(f), [close]);
      FirstKind(es, open, Yields(f) + [close]);
      var inner := es[1..];
      Tail(es[0], inner, rest);
      EmitStart(n, es[0], mp, Empty(es + rest));
      var m := EmitNode(n, es[0], mp, Empty(es + rest)).value;
      var q := Opened(m, (inner + rest)[0]);
      OpenClose(m, (inner + rest)[0]);
      RunOpened(m, inner + rest);
      OpenedState(m, (inner + rest)[0]);
      if t.SequenceTree? {
        k := EmitItems(q, f, inner, rest);
      } else {
        k := EmitPairs(q, f, inner, rest);
      }
    }
  }

  lemma OpenedState(m: Machine, e: Event)
    ensures m.state in {FlowSequenceFirstItemState, BlockSequenceFirstItemState} ==> SequenceState(Opened(m, e).state)
    ensures m.state in {FlowMappingFirstKeyState, BlockMappingFirstKeyState} ==> KeyState(Opened(m, e).state)
  {
  }

  /** The rest of a sequence. */
  lemma {:induction false} EmitItems(q: Machine, f: Forest, es: seq<Event>, rest: seq<Event>) returns (k: Machine)
    requires AllPaired(f) && Kinds(es) == Yields(f) + [SequenceEnd] && SequenceState(q.state) && Closed(q, FlowState(q.state)).Some?
    ensures Like(k, Closed(q, FlowState(q.state)).value) && Run(q, es + rest) == Run(k, rest)
    decreases f, 1
  {
    hide Step, Run, EmitNode, Opened, Kinds, Empty;
    match f
    case Nil =>
      assert Yields(f) + [SequenceEnd] == [SequenceEnd];
      OneKind(es, SequenceEnd);
      assert (es + rest)[1..] == rest;
      RunStep(q, es + rest);
      StepItem(q, es[0], Empty(es + rest));
      k := Closed(q, FlowState(q.state)).value;
    case Cons(t, tail) =>
      var (a, b) := (Yield(t), Yields(tail) + [SequenceEnd]);
      Assoc(a, Yields(tail), [SequenceEnd]);
      Cut(es, a, b);
      var (x, y) := (es[..|a|], es[|a|..]);
      Assoc(x, y, rest);
      var k1 := EmitTree(Push(q, q.state), t, false, x, y + rest);
      RunStep(q, es + rest);
      StepItem(q, x[0], Empty(es + rest));
      k := EmitItems(k1, tail, y, rest);
  }

  /** The rest of a mapping. */
  lemma {:induction false} EmitPairs(q: Machine, f: Forest, es: seq<Event>, rest: seq<Event>) returns (k: Machine)
    requires AllPaired(f) && Size(f) % 2 == 0 && Kinds(es) == Yields(f) + [MappingEnd] && KeyState(q.state)
    requires Closed(q, FlowState(q.state)).Some?
    ensures Like(k, Closed(q, FlowState(q.state)).value) && Run(q, es + rest) == Run(k, rest)
    decreases f, 1
  {
    hide Step, Run, EmitNode, Opened, Kinds, Empty, ValueState;
    match f
    case Nil =>
      assert Yields(f) + [MappingEnd] == [MappingEnd];
      OneKind(es, MappingEnd);
      assert (es + rest)[1..] == rest;
      RunStep(q, es + rest);
      StepKey(q, es[0], Empty(es + rest));
      k := Closed(q, FlowState(q.state)).value;
    case Cons(t, Cons(u, tail)) =>
      var (a, b, c) := (Yield(t), Yield(u), Yields(tail) + [MappingEnd]);
      Assoc(b, Yields(tail), [MappingEnd]);
      Assoc(a, b + Yields(tail), [MappingEnd]);
      Cut(es, a, b + c);
      var (x, yz) := (es[..|a|], es[|a|..]);
      Cut(yz, b, c);
      var (y, z) := (yz[..|b|], yz[|b|..]);
      Assoc(x, yz, rest);
      Assoc(y, z, rest);
      var k2 := EmitPair(q, f, x, y, z + rest);
      k := EmitPairs(k2, tail, z, rest);
  }

  /** A key and its value. */
  lemma {:induction false} EmitPair(q: Machine, f: Forest, x: seq<Event>, y: seq<Event>, rest: seq<Event>) returns (k: Machine)
    requires f.Cons? && f.tail.Cons? && AllPaired(f) && KeyState(q.state)
    requires Kinds(x) == Yield(f.head) && Kinds(y) == Yield(f.tail.head)
    ensures Like(k, q) && Run(q, x + (y + rest)) == Run(k, rest)
    decreases f, 0
  {
    hide Step, Run, EmitNode, Opened, Kinds, Empty, ValueState, Closed;
    var es := x + (y + rest);
    var empty := Empty(es);
    assert x != [] by { assert |Kinds(x)| == |x|; }
    var value := ValueState(q, x[0], empty);
    var (t, u) := (f.head, f.tail.head);
    var k1 := EmitTree(Push(q, value), t, true, x, y + rest);
    RunStep(q, es);
    StepKey(q, x[0], empty);
    var k2 := EmitTree(Push(k1, q.state), u, true, y, rest);
    RunStep(k1, y + rest);
    StepValue(q, k1, x[0], empty, y[0], Empty(y + rest));
    k := k2;
  }

  // ---------------------------------------------------------------- a stream

  /** A machine between documents. */
  predicate Between(m: Machine) {
    (m.state.FirstDocumentStartState? || m.state.DocumentStartState?) && m.states == []
  }

  /** One document. */
  lemma EmitDocument(m: Machine, t: Tree, es: seq<Event>, rest: seq<Event>) returns (k: Machine)
    requires Paired(t) && Kinds(es) == [DocumentStart] + Yield(t) + [DocumentEnd] && Between(m)
    ensures Like(k, m.(state := DocumentStartState)) && Run(m, es + rest) == Run(k, rest)
  {
    hide Step, Run, EmitNode, Kinds, Empty, Yield, Paired, Push, Return, Like, Between;
    Assoc([DocumentStart], Yield(t), [DocumentEnd]);
    FirstKind(es, DocumentStart, Yield(t) + [DocumentEnd]);
    var inner := es[1..];
    Tail(es[0], inner, rest);
    Cut(inner, Yield(t), [DocumentEnd]);
    var (x, y) := (inner[..|Yield(t)|], inner[|Yield(t)|..]);
    OneKind(y, DocumentEnd);
    Assoc(x, y, rest);
    RunStep(m, es + rest);
    DocumentSteps(m, es[0], Empty(es + rest));
    var m1 := m.(state := DocumentContentState);
    RunStep(m1, x + (y + rest));
    PushIs(m1, DocumentEndState);
    var k1 := EmitTree(Push(m1, DocumentEndState), t, false, x, y + rest);
    DocumentSteps(m1, x[0], Empty(x + (y + rest)));
    RunStep(k1, y + rest);
    assert (y + rest)[1..] == rest && (y + rest)[0] == y[0];
    LikeIs(k1, m1.(state := DocumentEndState));
    DocumentSteps(k1, y[0], Empty(y + rest));
    k := k1.(state := DocumentStartState);
    LikeIn(k1, m1.(state := DocumentEndState), DocumentStartState);
  }

  lemma DocumentSteps(m: Machine, e: Event, empty: bool)
    ensures Between(m) && e.kind.DocumentStart? ==> Step(m, e, empty) == Some(m.(state := DocumentContentState))
    ensures m.state.DocumentContentState? ==> Step(m, e, empty) == EmitNode(Push(m, DocumentEndState), e, false, empty)
    ensures m.state.DocumentEndState? && e.kind.DocumentEnd? ==> Step(m, e, empty) == Some(m.(state := DocumentStartState))
  {
    hide EmitNode;
  }

  lemma LikeIn(a: Machine, b: Machine, s: State)
    requires Like(a, b)
    ensures Like(a.(state := s), b.(state := s))
  {
  }

  lemma {:induction false} EmitDocuments(m: Machine, docs: Forest, es: seq<Event>) returns (k: Machine)
    requires AllPaired(docs) && Kinds(es) == YieldDocuments(docs) + [StreamEnd] && Between(m)
    ensures Like(k, m.(state := EndState)) && Run(m, es) == Some(k)
    decreases docs
  {
    hide Step, EmitNode, Kinds, Empty, Yield;
    match docs
    case Nil =>
      assert YieldDocuments(docs) + [StreamEnd] == [StreamEnd];
      OneKind(es, StreamEnd);
      EndStep(m, es[0], Empty(es));
      k := m.(state := EndState);
      assert es[1..] == [];
    case Cons(t, tail) =>
      var (a, b) := ([DocumentStart] + Yield(t) + [DocumentEnd], YieldDocuments(tail) + [StreamEnd]);
      Assoc(a, YieldDocuments(tail), [StreamEnd]);
      Cut(es, a, b);
      var k1 := EmitDocument(m, t, es[..|a|], es[|a|..]);
      k := EmitDocuments(k1, tail, es[|a|..]);
  }

  lemma EndStep(m: Machine, e: Event, empty: bool)
    requires Between(m) && e.kind.StreamEnd?
    ensures Step(m, e, empty) == Some(m.(state := EndState))
  {
  }

  predicate Initial(m: Machine) {
    m.state.StreamStartState? && m.states == [] && m.indents == [] && m.flowLevel == 0
  }

  /** Every stream of the grammar is accepted, and leaves all stacks empty. */
  lemma StreamAccepted(m: Machine, es: seq<Event>, docs: Forest)
    requires Initial(m) && Stream(es, docs)
    ensures var r := Run(m, es); r.Some? && r.value.state.EndState? && r.value.states == [] && r.value.indents == [] && r.value.flowLevel == 0
  {
    Assoc([StreamStart], YieldDocuments(docs), [StreamEnd]);
    FirstKind(es, StreamStart, YieldDocuments(docs) + [StreamEnd]);
    var m1 := Started(m);
    RunStep(m, es);
    var k := EmitDocuments(m1, docs, es[1..]);
  }

  // ---------------------------------------------------------------- and nothing else

  /** The machine accepts what is left. */
  predicate Accepts(m: Machine, es: seq<Event>) {
    Run(m, es).Some? && Run(m, es).value.state.EndState?
  }

  /** Where a node is expected and the rest is accepted, a node comes first. */
  lemma {:induction false} ParseTree(n: Machine, mp: bool, es: seq<Event>, empty: bool) returns (t: Tree, p: nat, k: Machine)
    requires n.states != [] && es != [] && EmitNode(n, es[0], mp, empty).Some? && Accepts(EmitNode(n, es[0], mp, empty).value, es[1..])
    ensures 0 < p <= |es| && Paired(t) && Kinds(es[..p]) == Yield(t)
    ensures Like(k, Return(n)) && Accepts(k, es[p..])
    decreases |es|, 0
  {
    hide Step, Run, EmitNode, Closed, Opened, Accepts;
    var e := es[0];
    if e.kind.Alias? || e.kind.Scalar? {
      EmitLeaf(n, e, mp, empty);
      t, p, k := if e.kind.Alias? then AliasTree else ScalarTree, 1, EmitNode(n, e, mp, empty).value;
    } else {
      NodeOnly(n, e, mp, empty);
      EmitStart(n, e, mp, empty);
      var m := EmitNode(n, e, mp, empty).value;
      var inner := es[1..];
      AcceptsMore(m, inner);
      var q := Opened(m, inner[0]);
      OpenClose(m, inner[0]);
      OpenedState(m, inner[0]);
      RunOpened(m, inner);
      assert Accepts(q, inner) by { AcceptsSame(m, q, inner); }
      var f, c;
      if e.kind.SequenceStart? {
        f, c, k := ParseItems(q, inner);
        t := SequenceTree(f);
      } else {
        f, c, k := ParsePairs(q, inner);
        t := MappingTree(f);
      }
      p := 1 + c;
      assert es[..p] == [e] + inner[..c] && es[p..] == inner[c..];
      KindsJoin([e], inner[..c]);
      assert Kinds([e]) == [e.kind];
      Assoc([e.kind], Yields(f), [if e.kind.SequenceStart? then SequenceEnd else MappingEnd]);
    }
  }

  lemma NodeOnly(n: Machine, e: Event, mp: bool, empty: bool)
    requires n.states != [] && EmitNode(n, e, mp, empty).Some?
    ensures IsNode(e.kind)
  {
  }

  lemma AcceptsSame(m: Machine, q: Machine, es: seq<Event>)
    requires Accepts(m, es) && Run(m, es) == Run(q, es)
    ensures Accepts(q, es)
  {
  }

  /** A machine that has not ended needs more events. */
  lemma AcceptsMore(m: Machine, es: seq<Event>)
    requires Accepts(m, es) && !m.state.EndState?
    ensures es != [] && Step(m, es[0], Empty(es)).Some? && Accepts(Step(m, es[0], Empty(es)).value, es[1..])
  {
  }

  lemma {:induction false} ParseItems(q: Machine, es: seq<Event>) returns (f: Forest, p: nat, k: Machine)
    requires SequenceState(q.state) && Closed(q, FlowState(q.state)).Some? && Accepts(q, es)
    ensures 0 < p <= |es| && AllPaired(f) && Kinds(es[..p]) == Yields(f) + [SequenceEnd]
    ensures Like(k, Closed(q, FlowState(q.state)).value) && Accepts(k, es[p..])
    decreases |es|, 1
  {
    hide Step, Run, EmitNode, Opened, Accepts, Kinds, Empty, Yield, Paired, Closed;
    AcceptsMore(q, es);
    StepItem(q, es[0], Empty(es));
    if es[0].kind.SequenceEnd? {
      f, p, k := Nil, 1, Closed(q, FlowState(q.state)).value;
      KindsOne(es);
      assert Yields(f) + [SequenceEnd] == [SequenceEnd];
    } else {
      var t, a, k1 := ParseTree(Push(q, q.state), false, es, Empty(es));
      ClosedLike(k1, q);
      var tail, b;
      tail, b, k := ParseItems(k1, es[a..]);
      f, p := Cons(t, tail), a + b;
      JoinParts(es, a, b);
      Assoc(Yield(t), Yields(tail), [SequenceEnd]);
    }
  }

  lemma ClosedLike(k: Machine, q: Machine)
    requires Like(k, q) && Closed(q, FlowState(q.state)).Some?
    ensures k.state == q.state && Closed(k, FlowState(k.state)).Some?
    ensures Like(Closed(k, FlowState(k.state)).value, Closed(q, FlowState(q.state)).value)
  {
  }

  lemma KindsOne(es: seq<Event>)
    requires es != []
    ensures Kinds(es[..1]) == [es[0].kind]
  {
  }

  lemma JoinParts(es: seq<Event>, a: nat, b: nat)
    requires a <= |es| && b <= |es[a..]|
    ensures Kinds(es[..a + b]) == Kinds(es[..a]) + Kinds(es[a..][..b]) && es[a + b..] == es[a..][b..]
  {
    assert es[..a + b] == es[..a] + es[a..][..b];
    KindsJoin(es[..a], es[a..][..b]);
  }

  lemma {:induction false} ParsePairs(q: Machine, es: seq<Event>) returns (f: Forest, p: nat, k: Machine)
    requires KeyState(q.state) && Closed(q, FlowState(q.state)).Some? && Accepts(q, es)
    ensures 0 < p <= |es| && AllPaired(f) && Size(f) % 2 == 0 && Kinds(es[..p]) == Yields(f) + [MappingEnd]
    ensures Like(k, Closed(q, FlowState(q.state)).value) && Accepts(k, es[p..])
    decreases |es|, 2
  {
    hide Step, Run, EmitNode, Opened, Accepts, Kinds, Empty, ValueState, Yield, Paired;
    AcceptsMore(q, es);
    StepKey(q, es[0], Empty(es));
    if es[0].kind.MappingEnd? {
      f, p, k := Nil, 1, Closed(q, FlowState(q.state)).value;
      KindsOne(es);
      assert Yields(f) + [MappingEnd] == [MappingEnd];
    } else {
      var t, u, a, k1 := ParsePair(q, es);
      ClosedLike(k1, q);
      var tail, b;
      tail, b, k := ParsePairs(k1, es[a..]);
      f, p := Cons(t, Cons(u, tail)), a + b;
      JoinParts(es, a, b);
      Assoc(Yield(t), Yield(u), Yields(tail));
      Assoc(Yield(t) + Yield(u), Yields(tail), [MappingEnd]);
    }
  }

  lemma {:induction false} ParsePair(q: Machine, es: seq<Event>) returns (t: Tree, u: Tree, p: nat, k: Machine)
    requires KeyState(q.state) && Accepts(q, es) && es != [] && !es[0].kind.MappingEnd?
    ensures 0 < p <= |es| && Paired(t) && Paired(u) && Kinds(es[..p]) == Yield(t) + Yield(u)
    ensures Like(k, q) && Accepts(k, es[p..])
    decreases |es|, 1
  {
    hide *;
    KeyIs(q.state);
    AcceptsMore(q, es);
    StepKey(q, es[0], Empty(es));
    var value := ValueState(q, es[0], Empty(es));
    ValueStates(q, es[0], Empty(es));
    PushIs(q, value);
    var a, k1;
    t, a, k1 := ParseTree(Push(q, value), true, es, Empty(es));
    LikeIs(k1, q.(state := value));
    var es1 := es[a..];
    AcceptsMore(k1, es1);
    StepValue(q, k1, es[0], Empty(es), es1[0], Empty(es1));
    PushIs(k1, q.state);
    var b;
    u, b, k := ParseTree(Push(k1, q.state), true, es1, Empty(es1));
    p := a + b;
    JoinParts(es, a, b);
    LikeTwice(k, k1.(state := q.state), q);
  }

  lemma KeyIs(s: State)
    requires KeyState(s)
    ensures !s.EndState?
  {
  }

  lemma PushIs(m: Machine, s: State)
    ensures Push(m, s).states != [] && Return(Push(m, s)) == m.(state := s)
  {
  }

  lemma LikeIs(a: Machine, b: Machine)
    requires Like(a, b)
    ensures a.state == b.state && a.states == b.states && a == b.(mapping := a.mapping)
  {
  }

  lemma LikeTwice(a: Machine, b: Machine, c: Machine)
    requires Like(a, b) && b == c.(mapping := b.mapping)
    ensures Like(a, c) == true
  {
  }

  lemma ValueStates(q: Machine, e: Event, empty: bool)
    ensures !ValueState(q, e, empty).EndState?
  {
  }

  lemma BetweenStep(m: Machine, es: seq<Event>)
    requires Between(m) && Accepts(m, es)
    ensures es != [] && (es[0].kind.StreamEnd? || es[0].kind.DocumentStart?)
    ensures es[0].kind.StreamEnd? ==> es == [es[0]]
    ensures es[0].kind.DocumentStart? ==> Accepts(m.(state := DocumentContentState), es[1..])
  {
    AcceptsMore(m, es);
    if es[0].kind.StreamEnd? && es[1..] != [] {
      RunStep(m.(state := EndState), es[1..]);
    }
  }

  lemma ContentStep(m: Machine, es: seq<Event>)
    requires m.state.DocumentContentState? && Accepts(m, es)
    ensures es != [] && EmitNode(Push(m, DocumentEndState), es[0], false, Empty(es)).Some?
    ensures Accepts(EmitNode(Push(m, DocumentEndState), es[0], false, Empty(es)).value, es[1..])
  {
    hide EmitNode;
    AcceptsMore(m, es);
  }

  lemma DocumentEndStep(m: Machine, es: seq<Event>)
    requires m.state.DocumentEndState? && Accepts(m, es)
    ensures es != [] && es[0].kind.DocumentEnd? && Accepts(m.(state := DocumentStartState), es[1..])
  {
    AcceptsMore(m, es);
  }

  lemma {:induction false} ParseDocuments(m: Machine, es: seq<Event>) returns (docs: Forest)
    requires Between(m) && Accepts(m, es)
    ensures AllPaired(docs) && Kinds(es) == YieldDocuments(docs) + [StreamEnd]
    decreases |es|
  {
    hide Step, Run, EmitNode, Opened, Accepts, Empty, Paired, Yield;
    BetweenStep(m, es);
    if es[0].kind.StreamEnd? {
      docs := Nil;
    } else {
      var m1 := m.(state := DocumentContentState);
      var es1 := es[1..];
      ContentStep(m1, es1);
      var t, p, k := ParseTree(Push(m1, DocumentEndState), false, es1, Empty(es1));
      var es2 := es1[p..];
      DocumentEndStep(k, es2);
      var k1 := k.(state := DocumentStartState);
      var tail := ParseDocuments(k1, es2[1..]);
      docs := Cons(t, tail);
      DocumentKinds(es, p, t, tail);
    }
  }

  lemma DocumentKinds(es: seq<Event>, p: nat, t: Tree, tail: Forest)
    requires es != [] && p < |es[1..]| && es[0].kind.DocumentStart? && Kinds(es[1..][..p]) == Yield(t) && es[1..][p].kind.DocumentEnd?
    requires Kinds(es[1..][p..][1..]) == YieldDocuments(tail) + [StreamEnd]
    ensures Kinds(es) == YieldDocuments(Cons(t, tail)) + [StreamEnd]
  {
    var (x, z) := (es[1..][..p], es[1..][p..][1..]);
    assert es == [es[0]] + x + [es[1..][p]] + z;
    KindsJoin([es[0]] + x + [es[1..][p]], z);
    KindsJoin([es[0]] + x, [es[1..][p]]);
    KindsJoin([es[0]], x);
    assert Kinds([es[0]]) == [DocumentStart] && Kinds([es[1..][p]]) == [DocumentEnd];
  }

  /** The machine, seeing the whole stream, accepts exactly the grammar. */
  lemma AcceptsStreams(m: Machine, es: seq<Event>)
    requires Initial(m)
    ensures Accepts(m, es) <==> exists docs :: Stream(es, docs)
  {
    if Accepts(m, es) {
      AcceptsMore(m, es);
      var docs := ParseDocuments(Started(m), es[1..]);
      assert es == [es[0]] + es[1..];
      KindsJoin([es[0]], es[1..]);
      assert Kinds([es[0]]) == [StreamStart];
      Assoc([StreamStart], YieldDocuments(docs), [StreamEnd]);
      assert Stream(es, docs);
    }
    if exists docs :: Stream(es, docs) {
      var docs :| Stream(es, docs);
      StreamAccepted(m, es, docs);
    }
  }
}
