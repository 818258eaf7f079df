/** The event queue in front of the machine, which holds events back until their look-ahead is there. */
module YamlEmitQueue {
  import opened Options
  import opened YamlEmitter

  function Delta(k: Kind): int {
    match k
    case StreamStart => 1
    case DocumentStart => 1
    case SequenceStart => 1
    case MappingStart => 1
    case StreamEnd => -1
    case DocumentEnd => -1
    case SequenceEnd => -1
    case MappingEnd => -1
    case _ => 0
  }

  /** Counting from `level`, the level comes to zero somewhere. */
  predicate Closes(ks: seq<Kind>, level: int) {
    ks != [] && (level + Delta(ks[0]) == 0 || Closes(ks[1..], level + Delta(ks[0])))
  }

  function Accumulate(k: Kind): nat {
    match k
    case DocumentStart => 1
    case SequenceStart => 2
    case MappingStart => 3
    case _ => 0
  }

  /** `need_more_events`. */
  predicate NeedMore(q: seq<Event>) {
    q == [] || (Accumulate(q[0].kind) > 0 && |q| <= Accumulate(q[0].kind) && !Closes(Kinds(q), 0))
  }

  /** The loop of `yaml_emitter_emit`. */
  function Drain(m: Machine, q: seq<Event>): Option<(Machine, seq<Event>)>
    decreases |q|
  {
    if NeedMore(q) then Some((m, q)) else
    match Step(m, q[0], Empty(q))
    case None => None
    case Some(k) => Drain(k, q[1..])
  }

  /** Emitting one event after the other. */
  function Feed(m: Machine, q: seq<Event>, es: seq<Event>): Option<(Machine, seq<Event>)>
    decreases |es|
  {
    if es == [] then Some((m, q)) else
    match Drain(m, q + [es[0]])
    case None => None
    case Some((k, r)) => Feed(k, r, es[1..])
  }

  class Emitter {
    var machine: Machine
    var events: seq<Event>

    constructor (canonical: bool, bestIndent: nat)
      ensures events == [] && Initial(machine)
    {
      machine := Machine(StreamStartState, [], [], 0, bestIndent, 0, canonical, false);
      events := [];
    }

    /** `need_more_events`, as the source counts. */
    method NeedMoreEvents() returns (more: bool)
      ensures more == NeedMore(events)
    {
      if events == [] {
        return true;
      }
      var accumulate := Accumulate(events[0].kind);
      if accumulate == 0 || |events| > accumulate {
        return false;
      }
      var level, k := 0, 0;
      while k < |events|
        invariant 0 <= k <= |events| && Closes(Kinds(events), 0) == Closes(Kinds(events)[k..], level)
      {
        level := level + Delta(events[k].kind);
        if level == 0 {
          return false;
        }
        assert Kinds(events)[k..][1..] == Kinds(events)[k + 1..];
        k := k + 1;
      }
      return true;
    }

    /** `yaml_emitter_emit`. */
    method Emit(e: Event) returns (ok: bool)
      modifies this
      ensures ok <==> Drain(old(machine), old(events) + [e]).Some?
      ensures ok ==> Drain(old(machine), old(events) + [e]) == Some((machine, events))
    {
      events := events + [e];
      var more := NeedMoreEvents();
      while !more
        invariant more == NeedMore(events)
        invariant Drain(machine, events) == Drain(old(machine), old(events) + [e])
        decreases |events|, !more
      {
        var next := Step(machine, events[0], Empty(events));
        if next == None {
          return false;
        }
        machine := next.value;
        events := events[1..];
        more := NeedMoreEvents();
      }
      return true;
    }
  }

  // ---------------------------------------------------------------- the queue changes nothing

  predicate Begins(k: Kind) {
    k.StreamStart? || k.DocumentStart? || k.SequenceStart? || k.MappingStart?
  }

  predicate Finishes(k: Kind) {
    k.StreamEnd? || k.DocumentEnd? || k.SequenceEnd? || k.MappingEnd?
  }

  /**
   What the lookahead waits for: one event behind the start of a document, two behind that of a
   sequence, three behind that of a mapping, and fewer only if they finish what was begun.
   */
  lemma NeedMoreIs(q: seq<Event>)
    ensures q == [] ==> NeedMore(q)
    ensures q != [] && !q[0].kind.DocumentStart? && !q[0].kind.SequenceStart? && !q[0].kind.MappingStart? ==> !NeedMore(q)
    ensures q != [] && q[0].kind.DocumentStart? ==> (NeedMore(q) <==> |q| == 1)
    ensures q != [] && q[0].kind.SequenceStart? ==> (NeedMore(q) <==> |q| == 1 || (|q| == 2 && !Finishes(q[1].kind)))
    ensures q != [] && q[0].kind.MappingStart? ==> (NeedMore(q) <==> |q| == 1 || (|q| <= 3 && !Finishes(q[1].kind)
                                                                     && (|q| == 3 && !Begins(q[1].kind) ==> !Finishes(q[2].kind))))
  {
    if q != [] && |q| <= 3 {
      var ks := Kinds(q);
      var d := Delta(ks[0]);
      assert ks[0] == q[0].kind;
      if |q| == 1 {
        assert ks[1..] == [] && !Closes([], d);
      } else if |q| == 2 {
        assert ks[1..] == [q[1].kind];
        ClosesOne(q[1].kind, [], d);
      } else {
        assert ks[1..] == [q[1].kind] + [q[2].kind];
        ClosesOne(q[1].kind, [q[2].kind], d);
        ClosesOne(q[2].kind, [], d + Delta(q[1].kind));
      }
    }
  }

  lemma ClosesOne(k: Kind, ks: seq<Kind>, level: int)
    ensures Closes([k] + ks, level) <==> level + Delta(k) == 0 || Closes(ks, level + Delta(k))
    ensures ks == [] ==> (Closes([k], level) <==> level + Delta(k) == 0)
  {
    assert ([k] + ks)[1..] == ks;
    assert [k][1..] == [];
  }

  /** Once an event is let through, whether it opens an empty collection shows in the queue, whatever comes later. */
  lemma LookAhead(q: seq<Event>, t: seq<Event>)
    requires !NeedMore(q)
    ensures q != [] && Empty(q + t) == Empty(q)
  {
    assert Kinds(q)[0] == q[0].kind;
    if |q| == 1 {
      assert Kinds(q)[1..] == [];
      assert !Closes([], 1);
    }
  }

  /** What the queue lets through is what the machine does on the whole stream. */
  lemma {:induction false} DrainRuns(m: Machine, q: seq<Event>, t: seq<Event>)
    ensures match Drain(m, q)
      case None => Run(m, q + t) == None
      case Some((k, r)) => Run(m, q + t) == Run(k, r + t) && NeedMore(r) && exists j: nat :: j <= |q| && r == q[j..]
    decreases |q|
  {
    if NeedMore(q) {
      assert q == q[0..];
    } else {
      LookAhead(q, t);
      assert (q + t)[1..] == q[1..] + t && (q + t)[0] == q[0];
      RunStep(m, q + t);
      hide Step, Empty, NeedMore;
      var s := Step(m, q[0], Empty(q));
      if s.Some? {
        DrainRuns(s.value, q[1..], t);
        var d := Drain(s.value, q[1..]);
        if d.Some? {
          var j: nat :| j <= |q[1..]| && d.value.1 == q[1..][j..];
          assert q[1..][j..] == q[1 + j..];
        }
      }
    }
  }

  /** The machine and the queue (k, r) after the events `s`, whatever comes next. */
  ghost predicate Behind(m: Machine, s: seq<Event>, k: Machine, r: seq<Event>, t: seq<Event>) {
    Run(m, s + t) == Run(k, r + t) && NeedMore(r) && exists j: nat :: j <= |s| && r == s[j..]
  }

  lemma BehindStep(m: Machine, a: seq<Event>, b: seq<Event>, k: Machine, r: seq<Event>, k': Machine, r': seq<Event>)
    requires Behind(m, a, k, r, b) && Behind(k, r + b, k', r', [])
    ensures Behind(m, a + b, k', r', []) == true
  {
    hide Run, NeedMore;
    var i: nat :| i <= |a| && r == a[i..];
    var j: nat :| j <= |r + b| && r' == (r + b)[j..];
    DropTwice(a, b, i, j);
    NothingBehind(a + b);
    NothingBehind(r + b);
    NothingBehind(r');
  }

  lemma DropTwice<T>(a: seq<T>, b: seq<T>, i: nat, j: nat)
    requires i <= |a| && j <= |a[i..] + b|
    ensures i + j <= |a + b| && (a[i..] + b)[j..] == (a + b)[i + j..]
  {
  }

  lemma NothingBehind<T>(s: seq<T>)
    ensures s + [] == s
  {
  }

  lemma {:induction false} FeedRuns(m: Machine, q: seq<Event>, es: seq<Event>)
    requires NeedMore(q)
    ensures Feed(m, q, es) == None ==> Run(m, q + es) == None
    ensures Feed(m, q, es).Some? ==> Behind(m, q + es, Feed(m, q, es).value.0, Feed(m, q, es).value.1, []) == true
    decreases |es|
  {
    if es == [] {
      assert q + es == q && q == (q + es)[0..];
    } else {
      var (a, b) := (q + [es[0]], es[1..]);
      assert q + es == a + b;
      DrainRuns(m, a, b);
      var d := Drain(m, a);
      if d.Some? {
        var (k, r) := d.value;
        assert Behind(m, a, k, r, b);
        FeedRuns(k, r, b);
        var f := Feed(k, r, b);
        hide NeedMore, Drain, Run, Behind, Feed;
        if f.Some? {
          BehindStep(m, a, b, k, r, f.value.0, f.value.1);
        }
      }
    }
  }

  // ---------------------------------------------------------------- in a stream every opening closes

  function Sum(ks: seq<Kind>): int {
    if ks == [] then 0 else Delta(ks[0]) + Sum(ks[1..])
  }

  lemma {:induction false} SumJoin(a: seq<Kind>, b: seq<Kind>)
    ensures Sum(a + b) == Sum(a) + Sum(b)
  {
    if a == [] {
      assert a + b == b;
    } else {
      assert (a + b)[1..] == a[1..] + b && (a + b)[0] == a[0];
      SumJoin(a[1..], b);
    }
  }

  lemma {:induction false} SumCloses(a: seq<Kind>, b: seq<Kind>, level: int)
    requires a != [] && level + Sum(a) == 0
    ensures Closes(a + b, level)
  {
    assert (a + b)[1..] == a[1..] + b && (a + b)[0] == a[0];
    if level + Delta(a[0]) != 0 {
      SumCloses(a[1..], b, level + Delta(a[0]));
    }
  }

  lemma {:induction false} TreeSum(t: Tree)
    ensures Sum(Yield(t)) == 0
    decreases t
  {
    if t.SequenceTree? || t.MappingTree? {
      ForestSum(t.items);
      Bracket(if t.SequenceTree? then SequenceStart else MappingStart, Yields(t.items), if t.SequenceTree? then SequenceEnd else MappingEnd);
    }
  }

  lemma {:induction false} ForestSum(f: Forest)
    ensures Sum(Yields(f)) == 0
    decreases f
  {
    match f
    case Nil =>
    case Cons(t, tail) =>
      TreeSum(t);
      ForestSum(tail);
      SumJoin(Yield(t), Yields(tail));
  }

  lemma Bracket(a: Kind, ks: seq<Kind>, b: Kind)
    ensures Sum([a] + ks + [b]) == Delta(a) + Sum(ks) + Delta(b)
  {
    SumJoin([a] + ks, [b]);
    SumJoin([a], ks);
    assert Sum([a]) == Delta(a) && Sum([b]) == Delta(b) by {
      assert [a][1..] == [] && [b][1..] == [];
    }
  }

  /** From every opening event on, the level comes back to zero. */
  ghost predicate AllClose(ks: seq<Kind>, n: nat) {
    forall k :: 0 <= k < n && k < |ks| && Accumulate(ks[k]) > 0 ==> Closes(ks[k..], 0)
  }

  lemma {:induction false} TreeCloses(t: Tree, rest: seq<Kind>)
    ensures AllClose(Yield(t) + rest, |Yield(t)|)
    decreases t
  {
    if t.SequenceTree? || t.MappingTree? {
      var (a, b) := (if t.SequenceTree? then SequenceStart else MappingStart, if t.SequenceTree? then SequenceEnd else MappingEnd);
      hide Closes;
      BracketCloses(a, t.items, b, rest);
    } else {
      assert |Yield(t)| == 1 && (Yield(t) + rest)[0] == Yield(t)[0] && Accumulate(Yield(t)[0]) == 0;
    }
  }

  lemma {:induction false} BracketCloses(a: Kind, f: Forest, b: Kind, rest: seq<Kind>)
    requires Delta(a) == 1 && Delta(b) == -1
    ensures AllClose([a] + Yields(f) + [b] + rest, |[a] + Yields(f) + [b]|)
    decreases f, 1
  {
    var (ks, m) := ([a] + Yields(f) + [b], Yields(f) + ([b] + rest));
    ForestSum(f);
    Bracket(a, Yields(f), b);
    SumCloses(ks, rest, 0);
    ForestCloses(f, [b] + rest);
    assert (ks + rest)[|ks| - 1] == b && Accumulate(b) == 0;
    hide *;
    Shifted(a, Yields(f), b, rest);
  }

  /** What closes behind the opening event closes in the whole too. */
  lemma Shifted(a: Kind, mid: seq<Kind>, b: Kind, rest: seq<Kind>)
    requires var ks := [a] + mid + [b]; Closes(ks + rest, 0) && (Accumulate(b) == 0 || Closes([b] + rest, 0))
    requires AllClose(mid + ([b] + rest), |mid|)
    ensures AllClose([a] + mid + [b] + rest, |[a] + mid + [b]|)
  {
    var (ks, m) := ([a] + mid + [b], mid + ([b] + rest));
    hide Closes;
    forall k | 0 <= k < |ks| && Accumulate((ks + rest)[k]) > 0
      ensures Closes((ks + rest)[k..], 0)
    {
      if k == 0 {
        assert (ks + rest)[0..] == ks + rest;
      } else {
        assert (ks + rest)[k..] == m[k - 1..] && (ks + rest)[k] == m[k - 1];
      }
    }
  }

  lemma {:induction false} ForestCloses(f: Forest, rest: seq<Kind>)
    ensures AllClose(Yields(f) + rest, |Yields(f)|)
    decreases f, 0
  {
    match f
    case Nil =>
    case Cons(t, tail) =>
      var (x, y) := (Yield(t), Yields(tail));
      TreeCloses(t, y + rest);
      ForestCloses(tail, rest);
      assert x + y + rest == x + (y + rest);
      forall k | 0 <= k < |x + y| && Accumulate((x + y + rest)[k]) > 0
        ensures Closes((x + y + rest)[k..], 0)
      {
        if k >= |x| {
          assert (x + (y + rest))[k..] == (y + rest)[k - |x|..];
        }
      }
  }

  lemma {:induction false} DocumentsClose(docs: Forest, rest: seq<Kind>)
    ensures AllClose(YieldDocuments(docs) + rest, |YieldDocuments(docs)|)
    decreases docs
  {
    match docs
    case Nil =>
    case Cons(t, tail) =>
      var (x, y) := ([DocumentStart] + Yield(t) + [DocumentEnd], YieldDocuments(tail));
      assert Yields(Cons(t, Nil)) == Yield(t) by { assert Yield(t) + [] == Yield(t); }
      BracketCloses(DocumentStart, Cons(t, Nil), DocumentEnd, y + rest);
      DocumentsClose(tail, rest);
      assert x + y + rest == x + (y + rest);
      forall k | 0 <= k < |x + y| && Accumulate((x + y + rest)[k]) > 0
        ensures Closes((x + y + rest)[k..], 0)
      {
        if k >= |x| {
          assert (x + (y + rest))[k..] == (y + rest)[k - |x|..];
        }
      }
  }

  /** Inside a complete stream nothing is held back. */
  lemma LetThrough(es: seq<Event>, docs: Forest, j: nat)
    requires Stream(es, docs) && j < |es|
    ensures !NeedMore(es[j..])
  {
    var ks := [StreamStart] + YieldDocuments(docs) + [StreamEnd];
    var m := YieldDocuments(docs) + [StreamEnd];
    DocumentsClose(docs, [StreamEnd]);
    assert |es| == |ks| && es[j..][0] == es[j] && es[j].kind == ks[j];
    if j > 0 {
      assert Kinds(es[j..]) == ks[j..] && ks[j..] == m[j - 1..] && ks[j] == m[j - 1];
      if j < |ks| - 1 {
        assert Accumulate(m[j - 1]) > 0 ==> Closes(m[j - 1..], 0);
      }
    }
  }

  /**
   Emitting the events one by one reaches the end state with an empty queue exactly when
   they form a stream of the grammar.
   */
  lemma EmitterAccepts(m: Machine, es: seq<Event>)
    requires Initial(m)
    ensures (Feed(m, [], es).Some? && Feed(m, [], es).value.0.state.EndState? && Feed(m, [], es).value.1 == [])
      <==> exists docs :: Stream(es, docs)
  {
    var f := Feed(m, [], es);
    FeedRuns(m, [], es);
    assert [] + es == es && es + [] == es;
    AcceptsStreams(m, es);
    if f.Some? {
      var (k, r) := f.value;
      assert r + [] == r;
      if exists docs :: Stream(es, docs) {
        var docs :| Stream(es, docs);
        var j: nat :| j <= |es| && r == es[j..];
        if j < |es| {
          LetThrough(es, docs, j);
        }
      }
    }
  }
}
