/**
 The event pool as a value: an array of slots, `links` ordering them with the live ones
 first, and one poll entry for each position.  Pointers are slot numbers.
 */
module EventPool {
  import opened Options
  import opened Sequences

  datatype Eval = Eval(fd: int, index: nat, iter: nat, pair: Option<nat>)

  datatype Pfd = Pfd(fd: int, events: int, revents: int)

  /** `closed` lists the descriptors handed to `close`, in order. */
  datatype Pool = Pool(items: seq<Eval>, links: seq<nat>, pfds: seq<Pfd>, count: nat, iters: nat, closed: seq<int>)

  /** What the walk over one poll batch has done: the position to look at next, what poll reported for which slots, those returned. */
  datatype Batch = Batch(offs: int, ready: map<nat, int>, served: seq<nat>)

  /** The slot is in use: it stands where it says, among the first `count`. */
  predicate Live(p: Pool, v: nat) {
    v < |p.items| && p.items[v].index < p.count <= |p.links| && p.links[p.items[v].index] == v
  }

  /** The descriptor and the events that poll watches for a live slot. */
  function Watched(p: Pool, v: nat): (int, int) {
    if Live(p, v) && p.items[v].index < |p.pfds| then (p.pfds[p.items[v].index].fd, p.pfds[p.items[v].index].events) else (0, 0)
  }

  ghost predicate Sized(p: Pool) {
    |p.links| == |p.pfds| == |p.items| && p.count <= |p.items|
    && NoDup(p.links) && (forall j :: 0 <= j < |p.links| ==> p.links[j] < |p.items|)
  }

  /** Live slots know their position, and the poll entry there is theirs. */
  ghost predicate Indexed(p: Pool)
    requires Sized(p)
  {
    forall j :: 0 <= j < p.count ==>
      var e := p.items[p.links[j]];
      e.index == j && e.fd > 0 && p.pfds[j].fd == e.fd && e.iter <= p.iters
  }

  /** A pair pointer of a live slot leads to a live slot, or to one that was closed. */
  ghost predicate Aimed(p: Pool)
    requires Sized(p)
  {
    forall j :: 0 <= j < p.count && p.items[p.links[j]].pair.Some? ==> Target(p, p.items[p.links[j]].pair.value)
  }

  ghost predicate Target(p: Pool, v: nat) {
    v < |p.items| && (Live(p, v) || (p.items[v].fd == -1 && p.items[v].iter <= p.iters))
  }

  ghost predicate Shape(p: Pool) {
    Sized(p) && Indexed(p) && Aimed(p)
  }

  /** The pointer of `v` leads back to `v`: two slots pointing at each other, or the three of a UDP association. */
  ghost predicate Paired(p: Pool, v: nat)
    requires v < |p.items|
  {
    match p.items[v].pair
    case None => true
    case Some(a) =>
      Live(p, a) && a != v &&
      match p.items[a].pair
      case None => false
      case Some(b) => b == v || (Live(p, b) && p.items[b].pair == Some(v))
  }

  /** What holds between any two calls. */
  ghost predicate Valid(p: Pool) {
    Shape(p) && forall j :: 0 <= j < p.count ==> Paired(p, p.links[j])
  }

  /** Poll entries of untouched live slots are pending exactly for what is ready and not yet returned. */
  ghost predicate Walking(p: Pool, b: Batch)
    requires Sized(p)
  {
    && -1 <= b.offs < |p.links|
    && (forall j :: 0 <= j < p.count ==> Pending(p, b, j))
    && (forall j :: p.count <= j <= b.offs ==> p.items[p.links[j]].iter == p.iters)
    && (forall e <- b.ready :: e < |p.items| && (p.items[e].iter != p.iters ==> Live(p, e)))
    && NoDup(b.served) && (forall e <- b.served :: e in b.ready)
  }

  ghost predicate Pending(p: Pool, b: Batch, j: nat)
    requires Sized(p) && j < p.count
  {
    var v := p.links[j];
    && (p.items[v].iter == p.iters ==> p.pfds[j].revents == 0)
    && (p.items[v].iter != p.iters ==> (p.pfds[j].revents != 0 <==> v in b.ready && v !in b.served))
    && (p.pfds[j].revents != 0 ==> v in b.ready && p.pfds[j].revents == b.ready[v])
    && (p.pfds[j].revents != 0 ==> j <= b.offs)
  }

  // ---------------------------------------------------------------- the operations

  /** `add_event`. */
  function Add(p: Pool, fd: int, events: int): (r: (Pool, Option<nat>))
    requires |p.links| == |p.pfds| && p.count <= |p.links| && forall j :: 0 <= j < |p.links| ==> p.links[j] < |p.items|
  {
    if p.count >= |p.links| then (p, None) else
    var v := p.links[p.count];
    (p.(items := p.items[v := Eval(fd, p.count, p.iters, None)],
        pfds := p.pfds[p.count := Pfd(fd, events, 0)],
        count := p.count + 1),
     Some(v))
  }

  /** The middle of `del_event`: the slot is closed, and the last live one takes its position. */
  function Remove(p: Pool, v: nat): (r: Pool)
    requires Sized(p) && Live(p, v)
    ensures r.count == p.count - 1 && |r.items| == |p.items| && r.items[v].pair == p.items[v].pair
  {
    var (i, c) := (p.items[v].index, p.count - 1);
    var items := p.items[v := p.items[v].(fd := -1, iter := p.iters)];
    var q := p.(items := items, count := c, closed := p.closed + [p.items[v].fd]);
    var e := p.links[c];
    if e == v then q else
      q.(links := p.links[i := e][c := v], pfds := p.pfds[i := p.pfds[c]], items := items[e := items[e].(index := i)])
  }

  /** Both ends of a pointer are cleared before the other slot is deleted. */
  function Unpair(p: Pool, v: nat, a: nat): Pool
    requires v < |p.items| && a < |p.items|
  {
    var items := if p.items[a].pair == Some(v) then p.items[a := p.items[a].(pair := None)] else p.items;
    p.(items := items[v := items[v].(pair := None)])
  }

  lemma RemoveSized(p: Pool, v: nat)
    requires Sized(p) && Live(p, v)
    ensures Sized(Remove(p, v))
  {
  }

  /** Every other slot keeps its descriptor, its stamp, its pointer and its place among the live ones. */
  lemma RemoveOther(p: Pool, v: nat, x: nat)
    requires Sized(p) && Indexed(p) && Live(p, v) && x < |p.items| && x != v
    ensures var (e, f) := (p.items[x], Remove(p, v).items[x]); f.fd == e.fd && f.pair == e.pair && f.iter == e.iter
    ensures Live(Remove(p, v), x) <==> Live(p, x)
    ensures Live(p, x) ==> var j := Remove(p, v).items[x].index;
      Remove(p, v).pfds[j] == p.pfds[p.items[x].index] && (j == p.items[x].index || p.items[x].index == p.count - 1)
  {
    var (q, c) := (Remove(p, v), p.count - 1);
    var e := p.links[c];
    assert p.items[e].index == c;
    if e != v && x != e {
      var j := p.items[x].index;
      assert j < c ==> (q.links[j] == x <==> p.links[j] == x);
    }
  }

  lemma RemoveShape(p: Pool, v: nat)
    requires Shape(p) && Live(p, v)
    ensures Shape(Remove(p, v)) && !Live(Remove(p, v), v)
  {
    var q := Remove(p, v);
    RemoveSized(p, v);
    forall j | 0 <= j < q.count
      ensures Live(p, q.links[j]) && q.links[j] != v
    {
      assert p.items[p.links[j]].index == j && p.items[p.links[p.count - 1]].index == p.count - 1;
    }
    forall j | 0 <= j < q.count
      ensures var e := q.items[q.links[j]]; e.index == j && e.fd > 0 && q.pfds[j].fd == e.fd && e.iter <= q.iters
      ensures q.items[q.links[j]].pair.Some? ==> Target(q, q.items[q.links[j]].pair.value)
    {
      var x := q.links[j];
      RemoveOther(p, v, x);
      assert p.items[x] == p.items[p.links[p.items[x].index]];
      if p.items[x].pair.Some? && p.items[x].pair.value != v {
        RemoveOther(p, v, p.items[x].pair.value);
      }
    }
  }

  lemma UnpairShape(p: Pool, v: nat, a: nat)
    requires Shape(p) && v < |p.items| && a < |p.items|
    ensures Shape(Unpair(p, v, a)) && forall x :: Live(Unpair(p, v, a), x) <==> Live(p, x)
  {
  }

  ghost function LiveSet(p: Pool): set<nat> {
    set x | 0 <= x < |p.items| && Live(p, x)
  }

  ghost predicate Bounded(items: seq<Eval>, rest: set<nat>) {
    forall x <- rest :: x < |items| && (items[x].pair.Some? ==> items[x].pair.value < |items|)
  }

  /** The slots that pair pointers lead to from `v`, in order, as long as they stay in `rest` and do not repeat. */
  ghost function Follow(items: seq<Eval>, v: nat, rest: set<nat>): (f: seq<nat>)
    requires v < |items| && Bounded(items, rest)
    ensures forall x <- f :: x in rest
    decreases |rest|
  {
    if v !in rest then [] else
    [v] + if items[v].pair == None then [] else Follow(items, items[v].pair.value, rest - {v})
  }

  /** The slots `del_event` closes. */
  ghost function Chain(p: Pool, v: nat): seq<nat>
    requires Shape(p) && v < |p.items|
  {
    LiveBounded(p);
    Follow(p.items, v, LiveSet(p))
  }

  lemma LiveBounded(p: Pool)
    requires Shape(p)
    ensures Bounded(p.items, LiveSet(p))
  {
    forall x <- LiveSet(p)
      ensures p.items[x].pair.Some? ==> p.items[x].pair.value < |p.items|
    {
      assert x == p.links[p.items[x].index];
    }
  }

  ghost function Fds(items: seq<Eval>, f: seq<nat>): seq<int>
    requires forall i :: 0 <= i < |f| ==> f[i] < |items|
  {
    seq(|f|, i requires 0 <= i < |f| => items[f[i]].fd)
  }

  /** Cutting the pointers back to a slot that is gone does not change where the others lead. */
  lemma {:induction false} FollowCut(items: seq<Eval>, items': seq<Eval>, v: nat, a: nat, rest: set<nat>)
    requires |items'| == |items| && v < |items| && a < |items| && Bounded(items, rest) && Bounded(items', rest) && v !in rest
    requires forall x <- rest :: items'[x].pair == items[x].pair || (items[x].pair == Some(v) && items'[x].pair == None)
    ensures Follow(items', a, rest) == Follow(items, a, rest)
    decreases |rest|
  {
    if a in rest && items[a].pair.Some? && items'[a].pair.Some? {
      FollowCut(items, items', v, items[a].pair.value, rest - {a});
    }
  }

  lemma AimedFrom(p: Pool, v: nat)
    requires Shape(p) && Live(p, v)
    ensures p.items[v].fd > 0 && p.items[v].index < |p.links| && v == p.links[p.items[v].index]
    ensures p.items[v].pair.Some? ==> Target(p, p.items[v].pair.value) && Target(Remove(p, v), p.items[v].pair.value)
  {
    if p.items[v].pair.Some? && p.items[v].pair.value != v {
      RemoveOther(p, v, p.items[v].pair.value);
    }
  }

  /** `del_event` up to the recursive call. */
  ghost function Cut(p: Pool, v: nat): (q: Pool)
    requires Shape(p) && Live(p, v)
    ensures Shape(q) && |q.items| == |p.items| == |p.links| == |q.links| && q.iters == p.iters && q.count == p.count - 1
    ensures q.closed == p.closed + [p.items[v].fd]
    ensures q.items[v].fd == -1 && q.items[v].iter == p.iters && q.items[v].pair == None
    ensures p.items[v].fd > 0 && (p.items[v].pair.Some? ==> Target(q, p.items[v].pair.value))
  {
    RemoveShape(p, v);
    AimedFrom(p, v);
    match p.items[v].pair
    case None => Remove(p, v)
    case Some(a) =>
      UnpairShape(Remove(p, v), v, a);
      Unpair(Remove(p, v), v, a)
  }

  lemma CutOther(p: Pool, v: nat, x: nat)
    requires Shape(p) && Live(p, v) && x < |p.items| && x != v
    ensures (Live(Cut(p, v), x) <==> Live(p, x)) && Watched(Cut(p, v), x) == Watched(p, x)
    ensures var (e, f) := (p.items[x], Cut(p, v).items[x]);
      f.fd == e.fd && f.iter == e.iter && (f.pair == e.pair || (e.pair == Some(v) && f.pair == None && p.items[v].pair == Some(x)))
  {
    RemoveShape(p, v);
    AimedFrom(p, v);
    RemoveOther(p, v, x);
    if p.items[v].pair.Some? {
      UnpairShape(Remove(p, v), v, p.items[v].pair.value);
    }
  }

  lemma CutSet(p: Pool, v: nat)
    requires Shape(p) && Live(p, v)
    ensures LiveSet(Cut(p, v)) == LiveSet(p) - {v}
  {
    hide *;
    var q := Cut(p, v);
    forall x | x in LiveSet(p) || x in LiveSet(q)
      ensures x in LiveSet(q) <==> x in LiveSet(p) && x != v
    {
      CutMember(p, v, x);
    }
  }

  lemma CutDead(p: Pool, v: nat)
    requires Shape(p) && Live(p, v)
    ensures !Live(Cut(p, v), v)
  {
  }

  lemma CutMember(p: Pool, v: nat, x: nat)
    requires Shape(p) && Live(p, v)
    ensures x in LiveSet(Cut(p, v)) <==> x in LiveSet(p) && x != v
  {
    if x < |p.items| && x != v {
      CutOther(p, v, x);
    } else if x == v {
      CutDead(p, v);
    }
  }

  /** `del_event` on a slot that is live or already closed. */
  ghost function Del(p: Pool, v: nat): (r: Pool)
    requires Shape(p) && Target(p, v)
    ensures Shape(r) && |r.items| == |p.items| && r.iters == p.iters && |r.links| == |p.links|
    decreases p.count
  {
    if p.items[v].fd == -1 then p else
    match p.items[v].pair
    case None => Cut(p, v)
    case Some(a) => Del(Cut(p, v), a)
  }

  /** What one call of `del_event` does to the slot `x`: closed if the chain reaches it, untouched otherwise. */
  ghost predicate Fate(p: Pool, r: Pool, f: seq<nat>, x: nat)
    requires |r.items| == |p.items| && x < |p.items|
  {
    var (e, g) := (p.items[x], r.items[x]);
    && (Live(r, x) <==> Live(p, x) && x !in f) && (Live(r, x) ==> Watched(r, x) == Watched(p, x))
    && (x !in f ==> g.fd == e.fd && g.iter == e.iter && (g.pair == e.pair || (g.pair == None && !Live(r, x))))
    && (x in f ==> g.fd == -1 && g.iter == p.iters && g.pair == None)
  }

  /** The slots still to close once the first one is gone. */
  lemma ChainRest(p: Pool, v: nat, a: nat)
    requires Shape(p) && Live(p, v) && p.items[v].pair == Some(a) && a < |p.items|
    ensures Chain(p, v) == [v] + Chain(Cut(p, v), a)
  {
    var q := Cut(p, v);
    CutSet(p, v);
    LiveBounded(p);
    LiveBounded(q);
    var rest := LiveSet(p) - {v};
    forall x <- rest
      ensures q.items[x].pair == p.items[x].pair || (p.items[x].pair == Some(v) && q.items[x].pair == None)
    {
      CutOther(p, v, x);
    }
    FollowCut(p.items, q.items, v, a, rest);
  }

  lemma ChainLive(p: Pool, v: nat)
    requires Shape(p) && v < |p.items|
    ensures forall x <- Chain(p, v) :: x < |p.items| && Live(p, x)
    ensures !Live(p, v) ==> Chain(p, v) == []
    ensures Live(p, v) ==> v in Chain(p, v) && (p.items[v].pair == None ==> Chain(p, v) == [v])
  {
    LiveBounded(p);
  }

  /** `f` are the slots closed on the way from `p` to `r`. */
  ghost predicate Closes(p: Pool, r: Pool, f: seq<nat>) {
    && NoDup(f) && (forall i :: 0 <= i < |f| ==> f[i] < |p.items|)
    && r.count == p.count - |f| && r.closed == p.closed + Fds(p.items, f)
  }

  /** Deleting a slot closes the descriptors on its chain, each once, in chain order. */
  lemma {:induction false} DelCloses(p: Pool, v: nat)
    requires Shape(p) && Target(p, v)
    ensures Closes(p, Del(p, v), Chain(p, v))
    decreases p.count
  {
    ChainLive(p, v);
    if Live(p, v) && p.items[v].pair.Some? {
      var (q, a) := (Cut(p, v), p.items[v].pair.value);
      assert Del(p, v) == Del(q, a);
      hide *;
      DelCloses(q, a);
      ChainLive(q, a);
      ChainRest(p, v, a);
      var f := Chain(q, a);
      forall i | 0 <= i < |f|
        ensures f[i] < |p.items| && f[i] != v && q.items[f[i]].fd == p.items[f[i]].fd
      {
        assert f[i] in f && Live(q, f[i]);
        CutDead(p, v);
        CutOther(p, v, f[i]);
      }
      ClosesStep(p, q, Del(q, a), v, f);
    } else if Live(p, v) {
      assert Fds(p.items, [v]) == [p.items[v].fd];
    }
  }

  lemma ClosesStep(p: Pool, q: Pool, r: Pool, v: nat, f: seq<nat>)
    requires v < |p.items| == |q.items| && q.count == p.count - 1 && q.closed == p.closed + [p.items[v].fd]
    requires Closes(q, r, f) && forall i :: 0 <= i < |f| ==> f[i] < |p.items| && f[i] != v && q.items[f[i]].fd == p.items[f[i]].fd
    ensures Closes(p, r, [v] + f)
  {
    assert Fds(p.items, [v] + f) == [p.items[v].fd] + Fds(q.items, f);
  }

  /** And it leaves every other slot as it was. */
  lemma {:induction false} DelFate(p: Pool, v: nat, x: nat)
    requires Shape(p) && Target(p, v) && x < |p.items|
    ensures Fate(p, Del(p, v), Chain(p, v), x)
    decreases p.count
  {
    ChainLive(p, v);
    if Live(p, v) {
      var q := Cut(p, v);
      CutDead(p, v);
      if x != v {
        CutOther(p, v, x);
      }
      hide Cut, Watched, Shape;
      if p.items[v].pair.Some? {
        var a := p.items[v].pair.value;
        assert Del(p, v) == Del(q, a);
        hide *;
        DelFate(q, a, x);
        ChainRest(p, v, a);
        ChainLive(q, a);
        FateStep(p, q, Del(q, a), v, Chain(q, a), x);
      }
    }
  }

  lemma FateStep(p: Pool, q: Pool, r: Pool, v: nat, f: seq<nat>, x: nat)
    requires |p.items| == |q.items| == |r.items| && x < |p.items| && v < |p.items| && q.iters == p.iters
    requires Fate(q, r, f, x) && Live(p, v) && v !in f && !Live(q, v)
    requires x == v ==> q.items[v].fd == -1 && q.items[v].iter == p.iters && q.items[v].pair == None
    requires x != v ==> (Live(q, x) <==> Live(p, x)) && (Live(p, x) ==> Watched(q, x) == Watched(p, x))
    requires x != v ==> q.items[x].fd == p.items[x].fd && q.items[x].iter == p.items[x].iter
    requires x != v ==> q.items[x].pair == p.items[x].pair || (q.items[x].pair == None && !Live(r, x))
    ensures Fate(p, r, [v] + f, x)
  {
  }

  // ---------------------------------------------------------------- chains

  /** The set follows the pair pointers of its slots. */
  ghost predicate Closed(p: Pool, s: set<nat>) {
    forall x <- s :: x < |p.items| && (p.items[x].pair.Some? ==> p.items[x].pair.value in s)
  }

  lemma {:induction false} FollowLeast(items: seq<Eval>, v: nat, rest: set<nat>, s: set<nat>)
    requires v < |items| && Bounded(items, rest) && v in s
    requires forall x <- s :: x < |items| && (items[x].pair.Some? ==> items[x].pair.value in s)
    ensures forall x <- Follow(items, v, rest) :: x in s
    decreases |rest|
  {
    if v in rest && items[v].pair.Some? {
      FollowLeast(items, items[v].pair.value, rest - {v}, s);
    }
  }

  lemma {:induction false} FollowClosed(items: seq<Eval>, v: nat, rest: set<nat>, x: nat)
    requires v < |items| && Bounded(items, rest) && x in Follow(items, v, rest)
    ensures items[x].pair.Some? && items[x].pair.value in rest ==> items[x].pair.value in Follow(items, v, rest)
    decreases |rest|
  {
    if v in rest && items[v].pair.Some? && x in Follow(items, items[v].pair.value, rest - {v}) {
      FollowClosed(items, items[v].pair.value, rest - {v}, x);
    }
  }

  /** The chain is the least set that holds the slot and follows pair pointers: what they reach, and nothing else. */
  lemma ChainReaches(p: Pool, v: nat, s: set<nat>)
    requires Valid(p) && Live(p, v)
    ensures v in Chain(p, v) && Closed(p, Elems(Chain(p, v)))
    ensures v in s && Closed(p, s) ==> Elems(Chain(p, v)) <= s
  {
    LiveBounded(p);
    ChainLive(p, v);
    forall x <- Chain(p, v)
      ensures p.items[x].pair.Some? ==> p.items[x].pair.value in Chain(p, v)
    {
      LivePaired(p, x);
      FollowClosed(p.items, v, LiveSet(p), x);
    }
    if v in s && Closed(p, s) {
      FollowLeast(p.items, v, LiveSet(p), s);
    }
  }

  lemma LivePaired(p: Pool, x: nat)
    requires Valid(p) && Live(p, x)
    ensures Paired(p, x) && p.items[x].fd > 0 && p.items[x].iter <= p.iters
    ensures p.items[x].pair.Some? ==> p.items[x].pair.value in LiveSet(p)
  {
    assert x == p.links[p.items[x].index];
  }

  /** A lone slot, two that point at each other, or the three of a UDP association. */
  lemma ChainShapes(p: Pool, v: nat)
    requires Valid(p) && Live(p, v)
    ensures match p.items[v].pair
      case None => Chain(p, v) == [v]
      case Some(a) =>
        match p.items[a].pair
        case None => false
        case Some(b) => Chain(p, v) == if b == v then [v, a] else [v, a, b]
  {
    LivePaired(p, v);
    LiveBounded(p);
    if p.items[v].pair.Some? {
      var a := p.items[v].pair.value;
      LivePaired(p, a);
      var (b, rest) := (p.items[a].pair.value, LiveSet(p));
      assert Follow(p.items, v, rest) == [v] + Follow(p.items, a, rest - {v});
      assert Follow(p.items, a, rest - {v}) == [a] + Follow(p.items, b, rest - {v} - {a});
      if b != v {
        assert Follow(p.items, b, rest - {v} - {a}) == [b] + Follow(p.items, v, rest - {v} - {a} - {b});
      }
    }
  }

  /** No live slot is left pointing at a closed one. */
  lemma DelKeeps(p: Pool, v: nat)
    requires Valid(p) && Target(p, v)
    ensures Valid(Del(p, v))
  {
    var r := Del(p, v);
    forall j | 0 <= j < r.count
      ensures Paired(r, r.links[j])
    {
      LiveAt(r, j);
      hide *;
      KeptPaired(p, v, r.links[j]);
    }
  }

  lemma LiveAt(p: Pool, j: nat)
    requires Shape(p) && j < p.count
    ensures Live(p, p.links[j])
  {
  }

  lemma KeptPaired(p: Pool, v: nat, x: nat)
    requires Valid(p) && Target(p, v) && Live(Del(p, v), x)
    ensures Paired(Del(p, v), x)
  {
    var (r, f) := (Del(p, v), Chain(p, v));
    DelFate(p, v, x);
    LivePaired(p, x);
    if p.items[x].pair.Some? {
      var a := p.items[x].pair.value;
      var b := p.items[a].pair.value;
      ChainLive(p, v);
      if Live(p, v) {
        ChainReaches(p, v, {});
        assert a !in Elems(f) && b !in Elems(f);
      }
      DelFate(p, v, a);
      if b != x {
        DelFate(p, v, b);
      }
    }
  }

  /** The listening slot, which has no pair, survives every other deletion: the pool never empties. */
  lemma ListenerStays(p: Pool, v: nat, l: nat)
    requires Valid(p) && Target(p, v) && Live(p, l) && p.items[l].pair == None && v != l
    ensures Live(Del(p, v), l) && Del(p, v).items[l].pair == None && Del(p, v).count > 0
  {
    ChainLive(p, v);
    if Live(p, v) {
      ChainShapes(p, v);
      LivePaired(p, v);
    }
    DelFate(p, v, l);
  }

  // ---------------------------------------------------------------- one poll batch

  lemma RemoveWalking(p: Pool, v: nat, b: Batch)
    requires Shape(p) && Live(p, v) && Walking(p, b)
    ensures Sized(Remove(p, v)) && Walking(Remove(p, v), b)
  {
    var (q, c) := (Remove(p, v), p.count - 1);
    RemoveShape(p, v);
    assert p.items[p.links[c]].index == c;
    forall j | 0 <= j < q.count
      ensures Pending(q, b, j)
    {
      var x := q.links[j];
      LiveAt(q, j);
      RemoveOther(p, v, x);
      assert Pending(p, b, p.items[x].index);
    }
    forall j | q.count <= j <= b.offs
      ensures q.items[q.links[j]].iter == q.iters
    {
      if j > c {
        assert p.links[j] != p.links[c];
      }
    }
    forall e | e in b.ready && q.items[e].iter != q.iters
      ensures Live(q, e)
    {
      RemoveOther(p, v, e);
    }
  }

  /** Only pair pointers differ. */
  ghost predicate Repaired(p: Pool, q: Pool) {
    q == p.(items := q.items) && |q.items| == |p.items|
    && forall x :: 0 <= x < |p.items| ==> q.items[x] == p.items[x].(pair := q.items[x].pair)
  }

  lemma RepairedWalking(p: Pool, q: Pool, b: Batch)
    requires Sized(p) && Repaired(p, q) && Walking(p, b)
    ensures Sized(q) && Walking(q, b)
  {
    forall j | 0 <= j < q.count
      ensures Pending(q, b, j)
    {
      assert Pending(p, b, j);
    }
    forall e | e in b.ready && q.items[e].iter != q.iters
      ensures Live(q, e)
    {
      assert Live(p, e);
    }
  }

  lemma {:induction false} DelWalking(p: Pool, v: nat, b: Batch)
    requires Shape(p) && Target(p, v) && Walking(p, b)
    ensures Walking(Del(p, v), b)
    decreases p.count
  {
    if p.items[v].fd != -1 {
      RemoveWalking(p, v, b);
      RemoveShape(p, v);
      if p.items[v].pair.Some? {
        RepairedWalking(Remove(p, v), Unpair(Remove(p, v), v, p.items[v].pair.value), b);
        DelWalking(Cut(p, v), p.items[v].pair.value, b);
      }
    }
  }

  /** `v` is new, everything else is as it was. */
  ghost predicate Added(p: Pool, q: Pool, v: nat, fd: int, events: int) {
    && !Live(p, v) && Live(q, v) && |q.items| == |p.items| && q.items[v] == Eval(fd, p.count, p.iters, None)
    && q.count == p.count + 1 && p.count < |q.pfds| && q.pfds[p.count].events == events
    && q.iters == p.iters && q.closed == p.closed
    && forall x :: 0 <= x < |p.items| && x != v ==> q.items[x] == p.items[x] && (Live(q, x) <==> Live(p, x))
  }

  lemma AddKeeps(p: Pool, fd: int, events: int)
    requires Valid(p) && fd > 0
    ensures Valid(Add(p, fd, events).0)
    ensures var (q, v) := Add(p, fd, events); v.Some? <==> p.count < |p.links|
    ensures Add(p, fd, events).1.Some? ==> Added(p, Add(p, fd, events).0, Add(p, fd, events).1.value, fd, events)
  {
    if p.count < |p.links| {
      var (q, v) := Add(p, fd, events);
      forall x | 0 <= x < |p.items| && x != v.value
        ensures Live(q, x) <==> Live(p, x)
      {
      }
      assert Shape(q);
      forall j | 0 <= j < q.count
        ensures Paired(q, q.links[j])
      {
        if j < p.count {
          assert Paired(p, p.links[j]);
        }
      }
    }
  }

  lemma AddWalking(p: Pool, fd: int, events: int, b: Batch)
    requires Valid(p) && fd > 0 && Walking(p, b)
    ensures Sized(Add(p, fd, events).0) && Walking(Add(p, fd, events).0, b)
  {
    AddKeeps(p, fd, events);
    if p.count < |p.links| {
      var (q, v) := Add(p, fd, events);
      forall j | 0 <= j < q.count
        ensures Pending(q, b, j)
      {
        AddPending(p, fd, events, b, j);
      }
    }
  }

  lemma AddPending(p: Pool, fd: int, events: int, b: Batch, j: nat)
    requires Sized(p) && fd > 0 && p.count < |p.links| && Walking(p, b) && j <= p.count
    ensures Sized(Add(p, fd, events).0) && Pending(Add(p, fd, events).0, b, j)
  {
    if j < p.count {
      assert Pending(p, b, j) && p.links[j] != p.links[p.count];
    }
  }

  // ---------------------------------------------------------------- connections

  lemma RepairedShape(p: Pool, q: Pool)
    requires Shape(p) && Repaired(p, q)
    requires forall x <- LiveSet(p) :: q.items[x].pair.Some? ==> Target(p, q.items[x].pair.value)
    ensures Shape(q) && LiveSet(q) == LiveSet(p)
  {
    forall x | 0 <= x < |p.items|
      ensures Live(q, x) <==> Live(p, x)
    {
    }
    assert Sized(q) && Indexed(q);
    forall j | 0 <= j < q.count && q.items[q.links[j]].pair.Some?
      ensures Target(q, q.items[q.links[j]].pair.value)
    {
      LiveAt(p, j);
      assert q.links[j] in LiveSet(p);
      assert Target(p, q.items[q.links[j]].pair.value);
    }
  }

  lemma ValidFrom(p: Pool)
    requires Shape(p) && forall x <- LiveSet(p) :: Paired(p, x)
    ensures Valid(p)
  {
    forall j | 0 <= j < p.count
      ensures Paired(p, p.links[j])
    {
      LiveAt(p, j);
      assert p.links[j] in LiveSet(p);
    }
  }

  /** A slot that was free is in use, and poll watches that descriptor for those events. */
  ghost predicate NewSlot(p: Pool, q: Pool, v: nat, fd: int, events: int) {
    !Live(p, v) && Live(q, v) && q.items[v].fd == fd && q.items[v].iter == p.iters && Watched(q, v) == (fd, events)
  }

  /** The slots in use stay in use with what poll watches for them; nothing is closed. */
  ghost predicate Kept(p: Pool, q: Pool) {
    && q.closed == p.closed && q.iters == p.iters
    && forall x :: 0 <= x < |p.items| && Live(p, x) ==> Live(q, x) && Watched(q, x) == Watched(p, x) && q.items[x].fd == p.items[x].fd
  }

  function SetPair(p: Pool, v: nat, a: Option<nat>): Pool
    requires v < |p.items|
  {
    p.(items := p.items[v := p.items[v].(pair := a)])
  }

  /** The end of `create_conn`: a slot for the outgoing socket, paired with `v`. */
  function Connect(p: Pool, v: nat, fd: int, events: int): (r: (Pool, Option<nat>))
    requires |p.links| == |p.pfds| == |p.items| && p.count <= |p.links| && v < |p.items|
    requires forall j :: 0 <= j < |p.links| ==> p.links[j] < |p.items|
  {
    var (q, a) := Add(p, fd, events);
    if a == None then (q, None) else (SetPair(SetPair(q, v, a), a.value, Some(v)), a)
  }

  /** How `udp_associate` ends: without a slot, with both, or at a null pointer in place of the second one. */
  datatype Association = NoSlot | Circle(relay: nat, client: nat) | NullClient

  /**
   The end of `udp_associate`: relay socket and client socket, in a circle with the control
   connection `v`.  Where the code should ask whether it got the second slot, it asks about the
   first one again; it then follows the null pointer that `v` was given.
   */
  function Associate(p: Pool, v: nat, ufd: int, cfd: int, events: int): (r: (Pool, Association))
    requires |p.links| == |p.pfds| == |p.items| && p.count <= |p.links| && v < |p.items|
    requires forall j :: 0 <= j < |p.links| ==> p.links[j] < |p.items|
  {
    var (q, a) := Add(p, ufd, events);
    if a == None then (q, NoSlot) else
    var (r, b) := Add(q, cfd, events);
    var w := SetPair(r, v, b);
    if b == None then (w, NullClient) else
    (SetPair(SetPair(w, b.value, a), a.value, Some(v)), Circle(a.value, b.value))
  }

  /** The null pointer is met exactly when one slot is free. */
  lemma SecondSlotMissing(p: Pool, v: nat, ufd: int, cfd: int, events: int)
    requires Valid(p) && Live(p, v) && ufd > 0 && cfd > 0
    ensures p.count < |p.links| ==> (Add(Add(p, ufd, events).0, cfd, events).1 == None <==> p.count + 1 == |p.links|)
    ensures Associate(p, v, ufd, cfd, events).1 == NullClient <==> p.count + 1 == |p.links|
    ensures Associate(p, v, ufd, cfd, events).1 == NoSlot <==> p.count == |p.links|
  {
    AddKeeps(p, ufd, events);
  }

  /** The listener and one control connection in a pool of three. */
  lemma OneFreeSlot()
    ensures var p := Pool([Eval(3, 0, 0, None), Eval(4, 1, 0, None), Eval(0, 0, 0, None)], [0, 1, 2],
                          [Pfd(3, 1, 0), Pfd(4, 1, 0), Pfd(0, 0, 0)], 2, 0, []);
      Valid(p) && Live(p, 1) && Associate(p, 1, 5, 6, 1).1 == NullClient
  {
    var items := [Eval(3, 0, 0, None), Eval(4, 1, 0, None), Eval(0, 0, 0, None)];
    var p := Pool(items, [0, 1, 2], [Pfd(3, 1, 0), Pfd(4, 1, 0), Pfd(0, 0, 0)], 2, 0, []);
    assert Valid(p) && Live(p, 1);
    SecondSlotMissing(p, 1, 5, 6, 1);
  }

  lemma AddLive(p: Pool, fd: int, events: int)
    requires Valid(p) && fd > 0 && p.count < |p.links|
    ensures var (q, a) := Add(p, fd, events); LiveSet(q) == LiveSet(p) + {a.value} && a.value !in LiveSet(p)
  {
    AddKeeps(p, fd, events);
  }

  lemma AddSlot(p: Pool, fd: int, events: int)
    requires Valid(p) && fd > 0 && p.count < |p.links|
    ensures var (q, a) := Add(p, fd, events); NewSlot(p, q, a.value, fd, events) && Kept(p, q)
  {
    assert forall j :: 0 <= j < p.count ==> p.links[j] != p.links[p.count];
  }

  lemma PairKeeps(p: Pool, q: Pool, x: nat, y: Option<nat>)
    requires x < |q.items| && Kept(p, q)
    ensures Kept(p, SetPair(q, x, y))
    ensures forall v: nat, fd: int, events: int :: NewSlot(p, q, v, fd, events) ==> NewSlot(p, SetPair(q, x, y), v, fd, events)
  {
  }

  lemma KeptTwice(p: Pool, q: Pool, r: Pool, v: nat, fd: int, events: int, w: nat, gd: int)
    requires Kept(p, q) && NewSlot(p, q, v, fd, events) && Kept(q, r) && NewSlot(q, r, w, gd, events) && |q.items| == |p.items|
    ensures Kept(p, r) && NewSlot(p, r, w, gd, events) && (r.items[v].iter == q.items[v].iter ==> NewSlot(p, r, v, fd, events))
  {
  }

  lemma CircleSlots(p: Pool, v: nat, ufd: int, cfd: int, events: int)
    requires Valid(p) && Live(p, v) && ufd > 0 && cfd > 0 && p.count + 2 <= |p.links|
    ensures var (q, s) := Associate(p, v, ufd, cfd, events);
      s.Circle? && Kept(p, q) == true && NewSlot(p, q, s.relay, ufd, events) == true && NewSlot(p, q, s.client, cfd, events) == true
  {
    AddKeeps(p, ufd, events);
    AddSlot(p, ufd, events);
    var (r, a) := Add(p, ufd, events);
    AddKeeps(r, cfd, events);
    AddSlot(r, cfd, events);
    var (t, b) := Add(r, cfd, events);
    hide Valid, Live, Watched;
    KeptTwice(p, r, t, a.value, ufd, events, b.value, cfd);
    PairKeeps(p, t, v, b);
    var t1 := SetPair(t, v, b);
    PairKeeps(p, t1, b.value, a);
    PairKeeps(p, SetPair(t1, b.value, a), a.value, Some(v));
  }

  lemma PairSlots(p: Pool, v: nat, fd: int, events: int)
    requires Valid(p) && Live(p, v) && fd > 0 && p.count < |p.links|
    ensures var (q, a) := Connect(p, v, fd, events); a.Some? && NewSlot(p, q, a.value, fd, events) == true && Kept(p, q) == true
  {
    AddSlot(p, fd, events);
    var (r, a) := Add(p, fd, events);
    hide Valid, Live, Watched;
    PairKeeps(p, r, v, a);
    PairKeeps(p, SetPair(r, v, a), a.value, Some(v));
  }

  /** A slot whose pointers do not meet `v` stays paired. */
  lemma StillPaired(p: Pool, q: Pool, x: nat, v: nat)
    requires Valid(p) && Live(p, x) && |q.items| == |p.items| && v < |p.items| && x != v && p.items[v].pair == None
    requires LiveSet(p) <= LiveSet(q) && forall y <- LiveSet(p) :: y != v ==> q.items[y].pair == p.items[y].pair
    ensures Paired(q, x)
  {
    LivePaired(p, x);
    assert x in LiveSet(p);
    if p.items[x].pair.Some? {
      var a := p.items[x].pair.value;
      assert a in LiveSet(p) && a in LiveSet(q);
      LivePaired(p, a);
      var b := p.items[a].pair.value;
      assert b in LiveSet(p) && b in LiveSet(q);
    }
  }

  /** Connecting a lone slot pairs it with the new one. */
  lemma ConnectKeeps(p: Pool, v: nat, fd: int, events: int)
    requires Valid(p) && Live(p, v) && p.items[v].pair == None && fd > 0
    ensures var (q, a) := Connect(p, v, fd, events);
      Valid(q) && (a.Some? <==> p.count < |p.links|) &&
      (a.Some? ==> Live(q, v) && Live(q, a.value) && q.items[v].pair == a && q.items[a.value].pair == Some(v)
                   && NewSlot(p, q, a.value, fd, events) && Kept(p, q))
  {
    AddKeeps(p, fd, events);
    if p.count < |p.links| {
      AddLive(p, fd, events);
      PairSlots(p, v, fd, events);
      var (r, a) := Add(p, fd, events);
      var q := Connect(p, v, fd, events).0;
      hide Valid, Shape, Add, Paired, NewSlot, Kept;
      assert Repaired(r, q);
      forall x <- LiveSet(r)
        ensures q.items[x].pair.Some? ==> Target(r, q.items[x].pair.value)
      {
        LivePaired(r, x);
      }
      RepairedShape(r, q);
      forall x <- LiveSet(q)
        ensures Paired(q, x)
      {
        if x == v || x == a.value {
          PairOfTwo(q, v, a.value);
        } else {
          StillPaired(p, q, x, v);
        }
      }
      ValidFrom(q);
    }
  }

  lemma PairOfTwo(q: Pool, v: nat, a: nat)
    requires Live(q, v) && Live(q, a) && v != a && q.items[v].pair == Some(a) && q.items[a].pair == Some(v)
    ensures Paired(q, v) && Paired(q, a)
  {
  }

  lemma NoClient(p: Pool, v: nat, ufd: int, cfd: int, events: int)
    requires Sized(p) && Live(p, v) && p.items[v].pair == None && p.count + 1 == |p.links|
    ensures Associate(p, v, ufd, cfd, events) == (Add(p, ufd, events).0, NullClient)
  {
    var q := Add(p, ufd, events).0;
    assert p.links[p.count] != v;
    assert SetPair(q, v, None).items == q.items;
  }

  /**
   With room for both, the control connection, its client socket and its relay socket point at
   each other in a circle.
   */
  lemma AssociateKeeps(p: Pool, v: nat, ufd: int, cfd: int, events: int)
    requires Valid(p) && Live(p, v) && p.items[v].pair == None && ufd > 0 && cfd > 0
    ensures var (q, s) := Associate(p, v, ufd, cfd, events);
      Valid(q) && Live(q, v) && (s.Circle? <==> p.count + 2 <= |p.links|)
      && (s.NoSlot? ==> q == p)
      && (s.Circle? ==> Chain(q, v) == [v, s.client, s.relay] && Kept(p, q)
                        && NewSlot(p, q, s.relay, ufd, events) && NewSlot(p, q, s.client, cfd, events))
  {
    AddKeeps(p, ufd, events);
    if p.count == |p.links| {
      return;
    }
    if p.count + 1 == |p.links| {
      NoClient(p, v, ufd, cfd, events);
      return;
    }
    AddLive(p, ufd, events);
    var (r, a) := Add(p, ufd, events);
    AddKeeps(r, cfd, events);
    AddLive(r, cfd, events);
    var (t, b) := Add(r, cfd, events);
    var q := Associate(p, v, ufd, cfd, events).0;
    CircleSlots(p, v, ufd, cfd, events);
    hide NewSlot, Kept, Valid, Chain, Live, Added;
    CircleKeeps(p, t, q, v, a.value, b.value);
  }

  lemma CircleKeeps(p: Pool, t: Pool, q: Pool, v: nat, a: nat, b: nat)
    requires Valid(p) && Valid(t) && Live(p, v) && p.items[v].pair == None && |t.items| == |p.items| && a < |p.items| && b < |p.items|
    requires LiveSet(t) == LiveSet(p) + {a} + {b} && a !in LiveSet(p) && b !in LiveSet(p) && a != b
    requires forall x <- LiveSet(p) :: t.items[x] == p.items[x]
    requires q == SetPair(SetPair(SetPair(t, v, Some(b)), b, Some(a)), a, Some(v))
    ensures Valid(q) && Live(q, v) && Chain(q, v) == [v, b, a]
  {
    CircleShape(t, q, v, a, b);
    assert v in LiveSet(p) && v in LiveSet(q) && a in LiveSet(q) && b in LiveSet(q);
    forall x <- LiveSet(q)
      ensures Paired(q, x)
    {
      hide Valid, Shape, Paired;
      if x == v || x == a || x == b {
        PairOfThree(q, v, b, a);
      } else {
        StillPaired(p, q, x, v);
      }
    }
    hide Shape, Paired;
    ValidFrom(q);
    ChainShapes(q, v);
  }

  lemma CircleShape(t: Pool, q: Pool, v: nat, a: nat, b: nat)
    requires Valid(t) && v in LiveSet(t) && a in LiveSet(t) && b in LiveSet(t) && v != a && v != b && a != b
    requires q == SetPair(SetPair(SetPair(t, v, Some(b)), b, Some(a)), a, Some(v))
    ensures Shape(q) && LiveSet(q) == LiveSet(t)
  {
    ValidShape(t);
    hide Valid, Shape, Paired;
    assert Repaired(t, q);
    forall x <- LiveSet(t)
      ensures q.items[x].pair.Some? ==> Target(t, q.items[x].pair.value)
    {
      LivePaired(t, x);
    }
    RepairedShape(t, q);
  }

  lemma ValidShape(p: Pool)
    requires Valid(p)
    ensures Shape(p)
  {
  }

  lemma PairOfThree(q: Pool, v: nat, a: nat, b: nat)
    requires Live(q, v) && Live(q, a) && Live(q, b) && v != a && a != b && v != b
    requires q.items[v].pair == Some(a) && q.items[a].pair == Some(b) && q.items[b].pair == Some(v)
    ensures Paired(q, v) && Paired(q, a) && Paired(q, b)
  {
  }

  /** Two slots that point at each other. */
  ghost predicate Coupled(p: Pool, v: nat, c: nat) {
    Live(p, v) && Live(p, c) && v != c && p.items[v].pair == Some(c) && p.items[c].pair == Some(v)
  }

  function Uncouple(p: Pool, v: nat, c: nat): Pool
    requires v < |p.items| && c < |p.items|
  {
    SetPair(SetPair(p, v, None), c, None)
  }

  lemma UncoupleKeeps(p: Pool, v: nat, c: nat)
    requires Valid(p) && Coupled(p, v, c)
    ensures Valid(Uncouple(p, v, c)) && LiveSet(Uncouple(p, v, c)) == LiveSet(p)
  {
    var q := Uncouple(p, v, c);
    assert Repaired(p, q);
    forall x <- LiveSet(p)
      ensures q.items[x].pair.Some? ==> Target(p, q.items[x].pair.value)
    {
      LivePaired(p, x);
    }
    RepairedShape(p, q);
    forall x <- LiveSet(q)
      ensures Paired(q, x)
    {
      OthersPaired(p, q, v, c, x);
    }
    ValidFrom(q);
  }

  lemma OthersPaired(p: Pool, q: Pool, v: nat, c: nat, x: nat)
    requires Valid(p) && Coupled(p, v, c) && q == Uncouple(p, v, c) && LiveSet(q) == LiveSet(p) && x in LiveSet(p)
    ensures Paired(q, x)
  {
    LivePaired(p, x);
    if x != v && x != c && p.items[x].pair.Some? {
      var a := p.items[x].pair.value;
      assert a in LiveSet(q);
      LivePaired(p, a);
      assert p.items[a].pair.value in LiveSet(q);
    }
  }

  /** `reconnect`: the client of `v` gets a new outgoing slot, and `v` is deleted; nothing happens when the pool is full. */
  ghost function Reconnect(p: Pool, v: nat, fd: int, events: int): (r: (Pool, bool))
    requires Valid(p) && Live(p, v) && p.items[v].pair.Some? && Coupled(p, v, p.items[v].pair.value) && fd > 0
  {
    var c := p.items[v].pair.value;
    var (q, a) := Connect(p, c, fd, events);
    if a == None then (p, false) else
    DetachedIs(p, v, c, fd, events);
    (Del(SetPair(q, v, None), v), true)
  }

  /** Detaching `v` after connecting its client is the same as uncoupling them first. */
  lemma DetachedIs(p: Pool, v: nat, c: nat, fd: int, events: int)
    requires Valid(p) && Coupled(p, v, c) && fd > 0 && p.count < |p.links|
    ensures var q := SetPair(Connect(p, c, fd, events).0, v, None);
      q == Connect(Uncouple(p, v, c), c, fd, events).0 && Valid(q) && Live(q, v) && Live(q, c) && q.items[v].pair == None
  {
    AddLive(p, fd, events);
    assert v in LiveSet(p) && c in LiveSet(p);
    DetachedSame(p, v, c, fd, events);
    UncoupleKeeps(p, v, c);
    var u := Uncouple(p, v, c);
    assert v in LiveSet(u) && c in LiveSet(u);
    hide Valid, Shape;
    ConnectKeeps(u, c, fd, events);
    AddKeeps(u, fd, events);
  }

  lemma DetachedSame(p: Pool, v: nat, c: nat, fd: int, events: int)
    requires Sized(p) && p.count < |p.links| && v < |p.items| && c < |p.items| && v != c
    requires p.links[p.count] != v && p.links[p.count] != c
    ensures v < |Connect(p, c, fd, events).0.items|
      && SetPair(Connect(p, c, fd, events).0, v, None) == Connect(Uncouple(p, v, c), c, fd, events).0
  {
    assert SetPair(Connect(p, c, fd, events).0, v, None).items == Connect(Uncouple(p, v, c), c, fd, events).0.items;
  }

  /** Only `v` is closed, and its client is left paired with the new slot. */
  lemma ReconnectKeeps(p: Pool, v: nat, fd: int, events: int)
    requires Valid(p) && Live(p, v) && p.items[v].pair.Some? && Coupled(p, v, p.items[v].pair.value) && fd > 0
    ensures var (r, ok) := Reconnect(p, v, fd, events);
      var c := p.items[v].pair.value;
      Valid(r) && |r.items| == |p.items| && (ok <==> p.count < |p.links|) && Live(r, c) &&
      (ok ==> r.closed == p.closed + [p.items[v].fd] && r.count == p.count && !Live(r, v)
              && r.items[c].pair == Some(p.links[p.count]) && Coupled(r, c, p.links[p.count])
              && NewSlot(p, r, p.links[p.count], fd, events))
  {
    var c := p.items[v].pair.value;
    if p.count < |p.links| {
      var q := SetPair(Connect(p, c, fd, events).0, v, None);
      DetachedIs(p, v, c, fd, events);
      AloneCloses(q, v);
      AddLive(p, fd, events);
      assert v in LiveSet(p);
      DelFate(q, v, v);
      DelFate(q, v, c);
      DelFate(q, v, p.links[p.count]);
      ReconnectSlot(p, v, fd, events);
      hide Watched, Valid, Del;
    }
  }

  /** A slot without a pair is closed alone. */
  lemma AloneCloses(q: Pool, v: nat)
    requires Valid(q) && Live(q, v) && q.items[v].pair == None
    ensures Chain(q, v) == [v] && var r := Del(q, v);
      Valid(r) && r.closed == q.closed + [q.items[v].fd] && r.count == q.count - 1
  {
    DelKeeps(q, v);
    DelCloses(q, v);
    ChainShapes(q, v);
    hide Valid, Del, Shape, Chain;
    assert Fds(q.items, [v]) == [q.items[v].fd];
  }

  lemma ReconnectSlot(p: Pool, v: nat, fd: int, events: int)
    requires Valid(p) && Live(p, v) && p.items[v].pair.Some? && fd > 0 && p.count < |p.links|
    ensures var (q, a) := Connect(p, p.items[v].pair.value, fd, events);
      a == Some(p.links[p.count]) && Watched(SetPair(q, v, None), a.value) == (fd, events) && !Live(p, a.value)
  {
    var c := p.items[v].pair.value;
    LivePaired(p, v);
    PairSlots(p, c, fd, events);
    PairKeeps(p, Connect(p, c, fd, events).0, v, None);
  }

  lemma ConnectWalking(p: Pool, v: nat, fd: int, events: int, b: Batch)
    requires Valid(p) && v < |p.items| && fd > 0 && Walking(p, b)
    ensures Sized(Connect(p, v, fd, events).0) && Walking(Connect(p, v, fd, events).0, b)
  {
    AddKeeps(p, fd, events);
    AddWalking(p, fd, events, b);
    RepairedWalking(Add(p, fd, events).0, Connect(p, v, fd, events).0, b);
  }

  lemma AssociateWalking(p: Pool, v: nat, ufd: int, cfd: int, events: int, b: Batch)
    requires Valid(p) && Live(p, v) && p.items[v].pair == None && ufd > 0 && cfd > 0 && Walking(p, b)
    ensures Sized(Associate(p, v, ufd, cfd, events).0) && Walking(Associate(p, v, ufd, cfd, events).0, b)
  {
    AddKeeps(p, ufd, events);
    AddWalking(p, ufd, events, b);
    if p.count == |p.links| {
      return;
    }
    if p.count + 1 == |p.links| {
      NoClient(p, v, ufd, cfd, events);
      return;
    }
    var q := Add(p, ufd, events).0;
    AddKeeps(q, cfd, events);
    AddWalking(q, cfd, events, b);
    RepairedWalking(Add(q, cfd, events).0, Associate(p, v, ufd, cfd, events).0, b);
  }

  lemma ReconnectWalking(p: Pool, v: nat, fd: int, events: int, b: Batch)
    requires Valid(p) && Live(p, v) && p.items[v].pair.Some? && Coupled(p, v, p.items[v].pair.value) && fd > 0 && Walking(p, b)
    ensures Sized(Reconnect(p, v, fd, events).0) && Walking(Reconnect(p, v, fd, events).0, b)
  {
    var c := p.items[v].pair.value;
    if p.count < |p.links| {
      ConnectWalking(p, c, fd, events, b);
      DetachedIs(p, v, c, fd, events);
      var q := Connect(p, c, fd, events).0;
      RepairedWalking(q, SetPair(q, v, None), b);
      DelWalking(SetPair(q, v, None), v, b);
    }
  }

  /** `mod_etype`. */
  function Mod(p: Pool, v: nat, events: int): Pool
    requires |p.links| == |p.pfds| && Live(p, v)
  {
    var i := p.items[v].index;
    p.(pfds := p.pfds[i := p.pfds[i].(events := events)])
  }

  /** Only poll entries differ, and not in their descriptors; a new batch may have begun. */
  ghost predicate SameSlots(p: Pool, q: Pool)
    requires Sized(p)
  {
    && q.items == p.items && q.links == p.links && q.count == p.count && q.iters >= p.iters && |q.pfds| == |p.pfds|
    && forall j :: 0 <= j < p.count ==> q.pfds[j].fd == p.pfds[j].fd
  }

  lemma SameSlotsKeep(p: Pool, q: Pool)
    requires Valid(p) && SameSlots(p, q)
    ensures Valid(q) && LiveSet(q) == LiveSet(p)
  {
    assert LiveSet(q) == LiveSet(p);
    assert Shape(q);
    assert forall j :: 0 <= j < p.count ==> Paired(p, p.links[j]);
  }

  lemma ModKeeps(p: Pool, v: nat, events: int, b: Batch)
    requires Valid(p) && Live(p, v) && Walking(p, b)
    ensures Valid(Mod(p, v, events)) && Walking(Mod(p, v, events), b)
    ensures forall x :: 0 <= x < |p.items| && Live(p, x) ==>
      Live(Mod(p, v, events), x) && Watched(Mod(p, v, events), x) == if x == v then (p.items[v].fd, events) else Watched(p, x)
  {
    var q := Mod(p, v, events);
    SameSlotsKeep(p, q);
    forall j | 0 <= j < q.count
      ensures Pending(q, b, j)
    {
      assert Pending(p, b, j);
    }
    assert forall e <- b.ready :: Live(p, e) ==> Live(q, e);
  }

  // ---------------------------------------------------------------- the walk

  /** The first position from `i` down whose slot is pending. */
  function Scan(p: Pool, i: int): (r: int)
    requires |p.pfds| == |p.links| && -1 <= i < |p.links| && forall j :: 0 <= j < |p.links| ==> p.links[j] < |p.items|
    ensures -1 <= r <= i && (r >= 0 ==> p.pfds[r].revents != 0 && p.items[p.links[r]].iter != p.iters)
    ensures forall j :: r < j <= i ==> p.pfds[j].revents == 0 || p.items[p.links[j]].iter == p.iters
    decreases i + 1
  {
    if i < 0 then -1
    else if p.pfds[i].revents == 0 || p.items[p.links[i]].iter == p.iters then Scan(p, i - 1)
    else i
  }

  /** `poll` reports events on the positions in use, and a new batch starts. */
  ghost function Polled(p: Pool, poll: seq<int>): Pool
    requires |p.pfds| >= p.count && |poll| >= p.count
  {
    p.(pfds := seq(|p.pfds|, j requires 0 <= j < |p.pfds| => if j < p.count then p.pfds[j].(revents := poll[j]) else p.pfds[j]),
       iters := p.iters + 1)
  }

  ghost function Reported(p: Pool, poll: seq<int>): map<nat, int>
    requires Sized(p) && |poll| >= p.count
  {
    map v | 0 <= v < |p.items| && Live(p, v) && poll[p.items[v].index] != 0 :: poll[p.items[v].index]
  }

  function Serve(p: Pool, i: nat): Pool
    requires i < |p.pfds|
  {
    p.(pfds := p.pfds[i := p.pfds[i].(revents := 0)])
  }

  lemma ReportedAt(p: Pool, poll: seq<int>, j: nat)
    requires Shape(p) && |poll| >= p.count && j < p.count
    ensures p.links[j] in Reported(p, poll) <==> poll[j] != 0
    ensures poll[j] != 0 ==> Reported(p, poll)[p.links[j]] == poll[j]
  {
  }

  lemma PolledPending(p: Pool, poll: seq<int>, j: nat)
    requires Shape(p) && |poll| >= p.count && j < p.count
    ensures Sized(Polled(p, poll)) && Pending(Polled(p, poll), Batch(p.count - 1, Reported(p, poll), []), j)
  {
    ReportedAt(p, poll, j);
  }

  lemma PolledKeeps(p: Pool, poll: seq<int>)
    requires Valid(p) && |poll| >= p.count
    ensures var q := Polled(p, poll); Valid(q) && Walking(q, Batch(p.count - 1, Reported(p, poll), []))
  {
    var (q, b') := (Polled(p, poll), Batch(p.count - 1, Reported(p, poll), []));
    SameSlotsKeep(p, q);
    forall j | 0 <= j < q.count
      ensures Pending(q, b', j)
    {
      PolledPending(p, poll, j);
    }
    forall e | e in b'.ready
      ensures Live(q, e)
    {
    }
  }

  /** Whatever poll reports, the walk finds it. */
  lemma PolledFinds(p: Pool, poll: seq<int>)
    requires Valid(p) && |poll| >= p.count && exists j :: 0 <= j < p.count && poll[j] != 0
    ensures Scan(Polled(p, poll), p.count - 1) >= 0
  {
    var j :| 0 <= j < p.count && poll[j] != 0;
    var q := Polled(p, poll);
    assert q.pfds[j].revents != 0 && q.items[q.links[j]].iter != q.iters;
  }

  /** Returning the slot at a pending position. */
  lemma ServeKeeps(p: Pool, b: Batch, i: nat)
    requires Valid(p) && Walking(p, b) && i <= b.offs && p.pfds[i].revents != 0 && p.items[p.links[i]].iter != p.iters
    requires forall j :: i < j <= b.offs ==> p.pfds[j].revents == 0 || p.items[p.links[j]].iter == p.iters
    ensures i < p.count && Live(p, p.links[i]) && p.links[i] in b.ready && p.links[i] !in b.served
    ensures b.ready[p.links[i]] == p.pfds[i].revents
    ensures var q := Serve(p, i); Valid(q) && Walking(q, b.(offs := i - 1, served := b.served + [p.links[i]]))
  {
    var (q, v) := (Serve(p, i), p.links[i]);
    assert Pending(p, b, i);
    SameSlotsKeep(p, q);
    var b' := b.(offs := i - 1, served := b.served + [v]);
    hide Valid, Shape;
    forall j | 0 <= j < q.count
      ensures Pending(q, b', j)
    {
      ServedPending(p, b, i, j);
    }
    assert forall e <- b.ready :: Live(p, e) ==> Live(q, e);
  }

  lemma ServedPending(p: Pool, b: Batch, i: nat, j: nat)
    requires Valid(p) && Walking(p, b) && i < p.count && i <= b.offs && j < p.count
    requires p.pfds[i].revents != 0 && p.items[p.links[i]].iter != p.iters
    requires forall j :: i < j <= b.offs ==> p.pfds[j].revents == 0 || p.items[p.links[j]].iter == p.iters
    ensures Pending(Serve(p, i), b.(offs := i - 1, served := b.served + [p.links[i]]), j)
  {
    assert Pending(p, b, j);
    assert p.items[p.links[j]].index == j;
  }

  /** When the walk is over, every slot that was ready and is still untouched has been returned, once. */
  lemma BatchServed(p: Pool, b: Batch)
    requires Valid(p) && Walking(p, b) && Scan(p, b.offs) < 0
    ensures NoDup(b.served) && forall e <- b.ready :: p.items[e].iter != p.iters ==> Live(p, e) && e in b.served
  {
    forall e <- b.ready
      ensures p.items[e].iter != p.iters ==> e in b.served
    {
      if p.items[e].iter != p.iters {
        assert Pending(p, b, p.items[e].index);
      }
    }
  }

  /** The batch after its first slot was returned. */
  ghost function Started(p: Pool, poll: seq<int>, k: int): Batch
    requires Sized(p) && |poll| >= p.count && 0 <= k < |p.links|
  {
    Batch(k - 1, Reported(p, poll), [p.links[k]])
  }

  /** A new batch, and its first slot. */
  ghost function NextNew(p: Pool, poll: seq<int>): (r: (Pool, Batch, Option<nat>))
    requires Valid(p) && |poll| >= p.count && exists j :: 0 <= j < p.count && poll[j] != 0
  {
    PolledKeeps(p, poll);
    PolledFinds(p, poll);
    var k := Scan(Polled(p, poll), p.count - 1);
    (Serve(Polled(p, poll), k), Started(p, poll, k), Some(p.links[k]))
  }

  /** `next_event`: the next pending slot of the batch, or, when the batch is used up, the first of a new one. */
  ghost function Next(p: Pool, b: Batch, poll: seq<int>): (r: (Pool, Batch, Option<nat>))
    requires Valid(p) && Walking(p, b) && |poll| >= p.count
  {
    var i := Scan(p, b.offs);
    if i >= 0 then (Serve(p, i), b.(offs := i - 1, served := b.served + [p.links[i]]), Some(p.links[i]))
    else if exists j :: 0 <= j < p.count && poll[j] != 0 then NextNew(p, poll)
    else (p, b, None)
  }

  /**
   A returned slot is live, was there before the batch began, was reported ready and has
   not been returned before in the batch; a new batch begins only when the old one is used up.
   */
  ghost predicate Returns(p: Pool, b: Batch, poll: seq<int>, q: Pool, b': Batch, v: nat)
    requires Valid(p) && Walking(p, b) && |poll| >= p.count
  {
    && Live(p, v) && Live(q, v) && p.items[v].iter != q.iters && v in b'.ready
    && if Scan(p, b.offs) >= 0 then v !in b.served && b' == b.(offs := b'.offs, served := b.served + [v]) && q.iters == p.iters
       else b'.ready == Reported(p, poll) && b'.served == [v] && q.iters == p.iters + 1
  }

  /** What `next_event` leaves behind. */
  ghost predicate Outcome(p: Pool, b: Batch, poll: seq<int>, r: (Pool, Batch, Option<nat>))
    requires Valid(p) && Walking(p, b) && |poll| >= p.count
  {
    var (q, b', v) := r;
    && Valid(q) && Walking(q, b') && q.items == p.items && q.links == p.links && q.count == p.count
    && (v == None <==> Scan(p, b.offs) < 0 && forall j :: 0 <= j < p.count ==> poll[j] == 0)
    && (v.Some? ==> Returns(p, b, poll, q, b', v.value))
  }

  lemma NextReturns(p: Pool, b: Batch, poll: seq<int>)
    requires Valid(p) && Walking(p, b) && |poll| >= p.count
    ensures Outcome(p, b, poll, Next(p, b, poll))
  {
    var i := Scan(p, b.offs);
    hide *;
    if i >= 0 {
      NextInBatch(p, b, poll);
    } else if exists j :: 0 <= j < p.count && poll[j] != 0 {
      NextInNew(p, b, poll);
    } else {
      NextFails(p, b, poll);
    }
  }

  lemma NextInBatch(p: Pool, b: Batch, poll: seq<int>)
    requires Valid(p) && Walking(p, b) && |poll| >= p.count && Scan(p, b.offs) >= 0
    ensures Outcome(p, b, poll, Next(p, b, poll)) == true
  {
    var i := Scan(p, b.offs);
    InBatch(p, b, i);
    hide *;
    OutcomeIn(p, b, poll, i);
  }

  lemma InBatch(p: Pool, b: Batch, i: nat)
    requires Valid(p) && Walking(p, b) && i == Scan(p, b.offs)
    ensures i < p.count && var v := p.links[i]; v < |p.items| && p.items[v].iter != p.iters && v in b.ready && v !in b.served
    ensures var q := Serve(p, i); Valid(q) == true && Walking(q, b.(offs := i - 1, served := b.served + [p.links[i]])) == true
  {
    ServeKeeps(p, b, i);
    hide Valid, Walking, Serve;
  }

  lemma OutcomeIn(p: Pool, b: Batch, poll: seq<int>, i: nat)
    requires Valid(p) && Walking(p, b) && |poll| >= p.count && i == Scan(p, b.offs)
    requires i < p.count && var v := p.links[i]; v < |p.items| && p.items[v].iter != p.iters && v in b.ready && v !in b.served
    requires var q := Serve(p, i); Valid(q) == true && Walking(q, b.(offs := i - 1, served := b.served + [p.links[i]])) == true
    ensures Outcome(p, b, poll, Next(p, b, poll)) == true
  {
    ServedLive(p, i);
    hide Valid, Walking, Scan, Live;
  }

  lemma ServedLive(p: Pool, i: nat)
    requires Valid(p) && i < p.count
    ensures var (q, v) := (Serve(p, i), p.links[i]);
      Live(p, v) && Live(q, v) && q.items == p.items && q.links == p.links && q.count == p.count
  {
    assert p.items[p.links[i]].index == i;
  }

  lemma NextInNew(p: Pool, b: Batch, poll: seq<int>)
    requires Valid(p) && Walking(p, b) && |poll| >= p.count
    requires Scan(p, b.offs) < 0 && exists j :: 0 <= j < p.count && poll[j] != 0
    ensures Outcome(p, b, poll, Next(p, b, poll)) == true
  {
    assert Next(p, b, poll) == NextNew(p, poll);
    hide *;
    var k := PollServes(p, poll);
    OutcomeNew(p, b, poll, k);
  }

  lemma OutcomeNew(p: Pool, b: Batch, poll: seq<int>, k: nat)
    requires Valid(p) && Walking(p, b) && |poll| >= p.count
    requires Scan(p, b.offs) < 0 && exists j :: 0 <= j < p.count && poll[j] != 0
    requires k < p.count
    requires var s := Serve(Polled(p, poll), k); Valid(s) == true && Walking(s, Started(p, poll, k)) == true
    requires var v := p.links[k]; Live(p, v) && v in Reported(p, poll) && p.items[v].iter <= p.iters
    ensures Outcome(p, b, poll, (Serve(Polled(p, poll), k), Started(p, poll, k), Some(p.links[k]))) == true
  {
    assert Live(Serve(Polled(p, poll), k), p.links[k]);
  }

  lemma NextFails(p: Pool, b: Batch, poll: seq<int>)
    requires Valid(p) && Walking(p, b) && |poll| >= p.count
    requires Scan(p, b.offs) < 0 && forall j :: 0 <= j < p.count ==> poll[j] == 0
    ensures Outcome(p, b, poll, Next(p, b, poll)) == true
  {
  }

  /** The first slot of a new batch. */
  lemma PollServes(p: Pool, poll: seq<int>) returns (k: nat)
    requires Valid(p) && |poll| >= p.count && exists j :: 0 <= j < p.count && poll[j] != 0
    ensures k < p.count && NextNew(p, poll) == (Serve(Polled(p, poll), k), Started(p, poll, k), Some(p.links[k]))
    ensures var s := Serve(Polled(p, poll), k); Valid(s) == true && Walking(s, Started(p, poll, k)) == true
    ensures var v := p.links[k]; Live(p, v) && v in Reported(p, poll) && p.items[v].iter <= p.iters
  {
    PolledKeeps(p, poll);
    PolledFinds(p, poll);
    k := Scan(Polled(p, poll), p.count - 1);
    PollAt(p, poll, k);
    hide *;
    StartedKeeps(p, poll, k);
  }

  lemma StartedKeeps(p: Pool, poll: seq<int>, k: nat)
    requires Valid(p) && |poll| >= p.count && k < p.count && exists j :: 0 <= j < p.count && poll[j] != 0
    requires Valid(Polled(p, poll)) && k == Scan(Polled(p, poll), p.count - 1)
    ensures NextNew(p, poll) == (Serve(Polled(p, poll), k), Started(p, poll, k), Some(p.links[k]))
    ensures var s := Serve(Polled(p, poll), k); Valid(s) == true && Walking(s, Started(p, poll, k)) == true
  {
    var q := Polled(p, poll);
    var b0 := Batch(p.count - 1, Reported(p, poll), []);
    PolledKeeps(p, poll);
    assert b0.served + [q.links[k]] == [q.links[k]];
    ServeKeeps(q, b0, k);
    hide Valid, Walking, Scan;
  }

  lemma PollAt(p: Pool, poll: seq<int>, k: nat)
    requires Valid(p) && |poll| >= p.count && k == Scan(Polled(p, poll), p.count - 1)
    ensures var v := p.links[k]; Live(p, v) && v in Reported(p, poll) && p.items[v].iter <= p.iters
    ensures Polled(p, poll).pfds[k].revents != 0
  {
    ReportedAt(p, poll, k);
    LiveAt(p, k);
    LivePaired(p, p.links[k]);
  }

  // ---------------------------------------------------------------- whole runs

  datatype Op =
    | AddOp(fd: int, events: int)
    | DelOp(v: nat)
    | ModOp(v: nat, events: int)
    | ConnectOp(v: nat, fd: int, events: int)
    | AssociateOp(v: nat, ufd: int, cfd: int, events: int)
    | ReconnectOp(v: nat, fd: int, events: int)
    | NextOp(poll: seq<int>)

  /** What the handlers of the event loop may call. */
  ghost predicate Enabled(p: Pool, op: Op) {
    match op
    case AddOp(fd, _) => fd > 0
    case DelOp(v) => Live(p, v)
    case ModOp(v, _) => Live(p, v)
    case ConnectOp(v, fd, _) => Live(p, v) && p.items[v].pair == None && fd > 0
    case AssociateOp(v, ufd, cfd, _) => Live(p, v) && p.items[v].pair == None && ufd > 0 && cfd > 0
    case ReconnectOp(v, fd, _) => Live(p, v) && p.items[v].pair.Some? && Coupled(p, v, p.items[v].pair.value) && fd > 0
    case NextOp(poll) => |poll| >= p.count
  }

  ghost function Step(p: Pool, b: Batch, op: Op): (r: (Pool, Batch))
    requires Valid(p) && Walking(p, b) && Enabled(p, op)
  {
    match op
    case AddOp(fd, events) => (Add(p, fd, events).0, b)
    case DelOp(v) => (Del(p, v), b)
    case ModOp(v, events) => (Mod(p, v, events), b)
    case ConnectOp(v, fd, events) => (Connect(p, v, fd, events).0, b)
    case AssociateOp(v, ufd, cfd, events) => (Associate(p, v, ufd, cfd, events).0, b)
    case ReconnectOp(v, fd, events) => (Reconnect(p, v, fd, events).0, b)
    case NextOp(poll) => var (q, b', _) := Next(p, b, poll); (q, b')
  }

  lemma StepKeeps(p: Pool, b: Batch, op: Op)
    requires Valid(p) && Walking(p, b) && Enabled(p, op)
    ensures var (q, b') := Step(p, b, op); Valid(q) && Walking(q, b')
  {
    match op
    case AddOp(fd, events) =>
      AddKeeps(p, fd, events);
      AddWalking(p, fd, events, b);
    case DelOp(v) =>
      DelKeeps(p, v);
      DelWalking(p, v, b);
    case ModOp(v, events) =>
      ModKeeps(p, v, events, b);
    case ConnectOp(v, fd, events) =>
      ConnectKeeps(p, v, fd, events);
      ConnectWalking(p, v, fd, events, b);
    case AssociateOp(v, ufd, cfd, events) =>
      AssociateKeeps(p, v, ufd, cfd, events);
      AssociateWalking(p, v, ufd, cfd, events, b);
    case ReconnectOp(v, fd, events) =>
      ReconnectKeeps(p, v, fd, events);
      ReconnectWalking(p, v, fd, events, b);
    case NextOp(poll) =>
      NextReturns(p, b, poll);
  }

  /** The slots returned over a run, each with the number of its batch. */
  ghost function Trace(p: Pool, b: Batch, ops: seq<Op>): seq<(nat, nat)>
    requires Valid(p) && Walking(p, b) && Runs(p, b, ops)
    decreases |ops|
  {
    if ops == [] then [] else
    StepKeeps(p, b, ops[0]);
    var (q, b') := Step(p, b, ops[0]);
    var rest := Trace(q, b', ops[1..]);
    if ops[0].NextOp? && Next(p, b, ops[0].poll).2.Some? then
      [(q.iters, Next(p, b, ops[0].poll).2.value)] + rest
    else rest
  }

  /** The handlers only call what they may. */
  ghost predicate Runs(p: Pool, b: Batch, ops: seq<Op>)
    requires Valid(p) && Walking(p, b)
    decreases |ops|
  {
    ops == [] || (
      Enabled(p, ops[0]) &&
      (StepKeeps(p, b, ops[0]);
       Runs(Step(p, b, ops[0]).0, Step(p, b, ops[0]).1, ops[1..])))
  }

  ghost function After(p: Pool, b: Batch, ops: seq<Op>): (r: (Pool, Batch))
    requires Valid(p) && Walking(p, b) && Runs(p, b, ops)
    ensures Valid(r.0) && Walking(r.0, r.1)
    decreases |ops|
  {
    if ops == [] then (p, b) else
    StepKeeps(p, b, ops[0]);
    After(Step(p, b, ops[0]).0, Step(p, b, ops[0]).1, ops[1..])
  }

  /** What comes is from this batch and not returned before, or from a later one. */
  ghost predicate Fresh(p: Pool, b: Batch, e: (nat, nat)) {
    e.0 > p.iters || (e.0 == p.iters && e.1 !in b.served && e.1 in b.ready)
  }

  /** A step stays in the batch, whose returned slots only grow, or starts the next one. */
  lemma StepForward(p: Pool, b: Batch, op: Op)
    requires Valid(p) && Walking(p, b) && Enabled(p, op)
    ensures var (q, b') := Step(p, b, op);
      q.iters == p.iters + 1 || (q.iters == p.iters && b'.ready == b.ready && b.served <= b'.served)
  {
    if op.NextOp? {
      NextReturns(p, b, op.poll);
    } else if op.ReconnectOp? {
      if p.count < |p.links| {
        DetachedIs(p, op.v, p.items[op.v].pair.value, op.fd, op.events);
      }
    }
  }

  lemma {:induction false} TraceFresh(p: Pool, b: Batch, ops: seq<Op>)
    requires Valid(p) && Walking(p, b) && Runs(p, b, ops)
    ensures forall e <- Trace(p, b, ops) :: Fresh(p, b, e)
    decreases |ops|
  {
    if ops != [] {
      var op := ops[0];
      StepKeeps(p, b, op);
      StepForward(p, b, op);
      var (q, b') := Step(p, b, op);
      TraceFresh(q, b', ops[1..]);
      var rest := Trace(q, b', ops[1..]);
      forall e <- rest
        ensures Fresh(p, b, e)
      {
        assert Fresh(q, b', e);
      }
      if op.NextOp? && Next(p, b, op.poll).2.Some? {
        NextReturns(p, b, op.poll);
        assert Trace(p, b, ops) == [(q.iters, Next(p, b, op.poll).2.value)] + rest;
      } else {
        assert Trace(p, b, ops) == rest;
      }
    }
  }

  /** Over any run of handler calls, no slot is returned twice for the same poll. */
  lemma {:induction false} TraceOnce(p: Pool, b: Batch, ops: seq<Op>)
    requires Valid(p) && Walking(p, b) && Runs(p, b, ops)
    ensures forall i, j :: 0 <= i < j < |Trace(p, b, ops)| ==> Trace(p, b, ops)[i] != Trace(p, b, ops)[j]
    decreases |ops|
  {
    if ops != [] {
      var op := ops[0];
      StepKeeps(p, b, op);
      var (q, b') := Step(p, b, op);
      var rest := Trace(q, b', ops[1..]);
      TraceOnce(q, b', ops[1..]);
      if op.NextOp? && Next(p, b, op.poll).2.Some? {
        NextReturns(p, b, op.poll);
        TraceFresh(q, b', ops[1..]);
        var e := (q.iters, Next(p, b, op.poll).2.value);
        assert e !in rest by {
          assert !Fresh(q, b', e);
        }
        assert Trace(p, b, ops) == [e] + rest;
      } else {
        assert Trace(p, b, ops) == rest;
      }
    }
  }

  /** Wherever a run stops with its batch used up, what was ready and is untouched has been returned. */
  lemma RunServes(p: Pool, b: Batch, ops: seq<Op>)
    requires Valid(p) && Walking(p, b) && Runs(p, b, ops)
    ensures var (q, b') := After(p, b, ops);
      Scan(q, b'.offs) < 0 ==> forall e <- b'.ready :: q.items[e].iter != q.iters ==> Live(q, e) && e in b'.served
  {
    var (q, b') := After(p, b, ops);
    if Scan(q, b'.offs) < 0 {
      BatchServed(q, b');
    }
  }
}
