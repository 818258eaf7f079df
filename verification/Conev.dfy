/** The event pool on the heap: the arrays that `add_event`, `del_event` and `next_event` work on. */
module Conev {
  import opened EventPool
  import opened Options

  const UINT_MAX := 0xFFFF_FFFF

  class PoolHd {
    const max: nat
    const items: array<Eval>
    const links: array<nat>
    const pevents: array<Pfd>
    var count: nat
    var iters: nat
    ghost var closed: seq<int>

    ghost predicate Arrays()
      reads this, items, links, pevents
    {
      items.Length == links.Length == pevents.Length == max && count <= max
    }

    /** What the arrays stand for. */
    ghost function Abs(): Pool
      reads this, items, links, pevents
    {
      Pool(items[..], links[..], pevents[..], count, iters, closed)
    }

    constructor (max: nat)
      ensures this.max == max && Arrays() && EventPool.Valid(Abs()) && Walking(Abs(), Batch(-1, map[], []))
      ensures count == 0 && fresh(items) && fresh(links) && fresh(pevents)
    {
      this.max := max;
      items := new Eval[max](_ => Eval(0, 0, 0, None));
      links := new nat[max](i => i);
      pevents := new Pfd[max](_ => Pfd(0, 0, 0));
      count, iters, closed := 0, 0, [];
    }

    method AddEvent(fd: int, events: int) returns (val: Option<nat>)
      requires Arrays() && EventPool.Valid(Abs()) && fd > 0
      modifies this`count, items, pevents
      ensures Arrays() && EventPool.Valid(Abs()) && (Abs(), val) == Add(old(Abs()), fd, events)
    {
      ghost var p := Abs();
      AddKeeps(p, fd, events);
      hide EventPool.Valid;
      if count >= max {
        return None;
      }
      val := Some(links[count]);
      Append(links[count], fd, events);
      assert Abs() == Add(p, fd, events).0;
    }

    /** The next slot is taken into use. */
    method Append(v: nat, fd: int, events: int)
      requires Arrays() && count < max && v == links[count] < max
      modifies this`count, items, pevents
      ensures Arrays() && count == old(count) + 1 && links[..] == old(links[..])
      ensures items[..] == old(items[..])[v := Eval(fd, old(count), iters, None)] && pevents[..] == old(pevents[..])[old(count) := Pfd(fd, events, 0)]
    {
      items[v] := Eval(fd, count, iters, None);
      pevents[count] := Pfd(fd, events, 0);
      count := count + 1;
    }

    /** The slot is closed and the last live one takes its position. */
    method Unlink(v: nat)
      requires Arrays() && Shape(Abs()) && Live(Abs(), v)
      modifies this`count, this`closed, items, links, pevents
      ensures Arrays() && Sized(old(Abs())) && Abs() == Remove(old(Abs()), v)
    {
      assert v == links[items[v].index] && pevents[items[v].index].fd == items[v].fd;
      closed := closed + [items[v].fd];
      items[v] := items[v].(fd := -1, iter := iters);
      count := count - 1;
      var ev := links[count];
      if ev != v {
        var index := items[v].index;
        links[index] := ev;
        links[count] := v;
        pevents[index] := pevents[count];
        items[ev] := items[ev].(index := index);
      }
    }

    method DelEvent(v: nat)
      requires Arrays() && Shape(Abs()) && Target(Abs(), v) && |Chain(Abs(), v)| < count
      modifies this`count, this`closed, items, links, pevents
      ensures Arrays() && Shape(old(Abs())) && Target(old(Abs()), v) && Abs() == Del(old(Abs()), v)
      decreases count
    {
      ghost var p := Abs();
      assert items[v].fd >= -1 && items[v].iter <= iters;
      if items[v].fd == -1 {
        return;
      }
      AimedFrom(p, v);
      RemoveShape(p, v);
      Unlink(v);
      if items[v].pair.Some? {
        var e := items[v].pair.value;
        ChainRest(p, v, e);
        if items[e].pair == Some(v) {
          items[e] := items[e].(pair := None);
        }
        items[v] := items[v].(pair := None);
        assert Abs() == Cut(p, v);
        DelEvent(e);
      }
      assert count > 0 by { DelCloses(p, v); }
    }

    method ModEtype(v: nat, events: int)
      requires Arrays() && Live(Abs(), v)
      modifies pevents
      ensures Arrays() && Abs() == Mod(old(Abs()), v, events)
    {
      assert items[v].index < count;
      pevents[items[v].index] := pevents[items[v].index].(events := events);
    }

    /** The end of `create_conn`: the outgoing socket gets a slot, paired with `v`. */
    method CreateConn(v: nat, fd: int, events: int) returns (pair: Option<nat>)
      requires Arrays() && EventPool.Valid(Abs()) && Live(Abs(), v) && fd > 0
      modifies this`count, items, pevents
      ensures Arrays() && EventPool.Valid(old(Abs())) == true && (Abs(), pair) == Connect(old(Abs()), v, fd, events)
    {
      pair := AddEvent(fd, events);
      if pair == None {
        return;
      }
      items[v] := items[v].(pair := pair);
      items[pair.value] := items[pair.value].(pair := Some(v));
    }

    /** The end of `udp_associate`; `NullClient` stands for the write through a null pointer. */
    method UdpAssociate(v: nat, ufd: int, cfd: int, events: int) returns (r: Association)
      requires Arrays() && EventPool.Valid(Abs()) && Live(Abs(), v) && ufd > 0 && cfd > 0
      modifies this`count, items, pevents
      ensures Arrays() && EventPool.Valid(old(Abs())) == true && (Abs(), r) == Associate(old(Abs()), v, ufd, cfd, events)
    {
      AddKeeps(Abs(), ufd, events);
      var pair := AddEvent(ufd, events);
      if pair == None {
        return NoSlot;
      }
      AddKeeps(Abs(), cfd, events);
      var client := AddEvent(cfd, events);
      items[v] := items[v].(pair := client);
      if client == None {
        return NullClient;
      }
      items[client.value] := items[client.value].(pair := pair);
      items[pair.value] := items[pair.value].(pair := Some(v));
      return Circle(pair.value, client.value);
    }

    /** `reconnect` once the new socket is open: the client moves to it, and `v` is deleted. */
    method Reconnect(v: nat, fd: int, events: int) returns (ok: bool)
      requires Arrays() && EventPool.Valid(Abs()) == true && Live(Abs(), v) && fd > 0
      requires Abs().items[v].pair.Some? && Coupled(Abs(), v, Abs().items[v].pair.value)
      modifies this`count, this`closed, items, links, pevents
      ensures Arrays() && EventPool.Valid(old(Abs())) == true && (Abs(), ok) == EventPool.Reconnect(old(Abs()), v, fd, events)
    {
      ghost var p := Abs();
      ReconnectFacts(p, v, fd, events);
      hide EventPool.Valid, EventPool.Reconnect, Shape, Connect, Del;
      var client := items[v].pair.value;
      var pair := CreateConn(client, fd, events);
      if pair == None {
        return false;
      }
      items[v] := items[v].(pair := None);
      assert Abs() == SetPair(Connect(p, client, fd, events).0, v, None);
      DelEvent(v);
      return true;
    }

    /** `poll`, which fills in the returned events of the entries in use. */
    method Poll(poll: seq<int>)
      requires Arrays() && |poll| == count
      modifies pevents
      ensures Arrays() && Abs() == old(Abs()).(pfds := Polled(old(Abs()), poll).pfds)
    {
      for j := 0 to count
        invariant forall k :: 0 <= k < j ==> pevents[k] == old(pevents[k]).(revents := poll[k])
        invariant forall k :: j <= k < max ==> pevents[k] == old(pevents[k])
      {
        pevents[j] := pevents[j].(revents := poll[j]);
      }
      assert pevents[..] == Polled(old(Abs()), poll).pfds;
    }

    /** A poll that found something starts a new batch. */
    method Begin(poll: seq<int>) returns (i: int)
      requires Arrays() && |poll| == count && iters < UINT_MAX
      modifies this`iters, pevents
      ensures Arrays() && Abs() == Polled(old(Abs()), poll) && i == count - 1
    {
      Poll(poll);
      i := count - 1;
      iters := iters + 1;
    }

    /** Nothing to return at this position. */
    method Idle(i: nat) returns (idle: bool)
      requires Arrays() && i < |Abs().links| && Abs().links[i] < |Abs().items|
      requires i < Abs().count || Abs().items[Abs().links[i]].iter == Abs().iters
      ensures idle <==> Abs().pfds[i].revents == 0 || Abs().items[Abs().links[i]].iter == Abs().iters
    {
      var typ := pevents[i].revents;
      if typ == 0 {
        return true;
      }
      var v := links[i];
      assert i < count || items[v].iter == iters;
      return items[v].iter == iters;
    }

    method Take(i: nat) returns (v: nat, typ: int)
      requires Arrays() && i < |Abs().links|
      modifies pevents
      ensures Arrays() && Abs() == Serve(old(Abs()), i) && v == old(Abs()).links[i] && typ == old(Abs()).pfds[i].revents
    {
      v, typ := links[i], pevents[i].revents;
      pevents[i] := pevents[i].(revents := 0);
    }

    lemma Sizes()
      requires Arrays()
      ensures |Abs().links| == max && Abs().count == count
    {
    }

    method NextEvent(offs: int, poll: seq<int>, ghost b: Batch) returns (val: Option<nat>, offs': int, typel: int, ghost b': Batch)
      requires Arrays() && EventPool.Valid(Abs()) == true && Walking(Abs(), b) == true && offs == b.offs
      requires |poll| == count && iters < UINT_MAX
      modifies this`iters, pevents
      ensures Arrays() && EventPool.Valid(old(Abs())) == true && Walking(old(Abs()), b) == true
      ensures (Abs(), b', val) == Next(old(Abs()), b, poll)
      ensures val.Some? ==> offs' == b'.offs && val.value in b'.ready && typel == b'.ready[val.value]
      ensures val == None ==> offs' == offs
    {
      ghost var p := Abs();
      ghost var (cur, polled) := (b, false);
      var i := offs;
      hide *;
      Sizes();
      GoingStarts(p, b, poll);
      while true
        invariant Arrays() && |poll| == count && (!polled ==> iters < UINT_MAX)
        invariant Going(p, b, poll, polled, Abs(), cur, i) == true
        decreases !polled, i
      {
        GoingAt(p, b, poll, polled, Abs(), cur, i);
        Sizes();
        assert -1 <= i < max;
        if i < 0 {
          if forall k | 0 <= k < count :: poll[k] == 0 {
            GoingFails(p, b, poll, polled, Abs(), cur, i);
            return None, offs, 0, b;
          }
          GoingPolls(p, b, poll, polled, Abs(), cur, i);
          i := Begin(poll);
          Sizes();
          polled, cur := true, Batch(i, Reported(p, poll), []);
          GoingAt(p, b, poll, polled, Abs(), cur, i);
        }
        var idle := Idle(i);
        if idle {
          GoingOn(p, b, poll, polled, Abs(), cur, i);
          i := i - 1;
          continue;
        }
        GoingReturns(p, b, poll, polled, Abs(), cur, i);
        var v, typ := Take(i);
        return Some(v), i - 1, typ, cur.(offs := i - 1, served := cur.served + [v]);
      }
    }
  }

  lemma ReconnectFacts(p: Pool, v: nat, fd: int, events: int)
    requires EventPool.Valid(p) && Live(p, v) && fd > 0
    requires p.items[v].pair.Some? && Coupled(p, v, p.items[v].pair.value)
    ensures var (q, pair) := Connect(p, p.items[v].pair.value, fd, events);
      if pair == None then EventPool.Reconnect(p, v, fd, events) == (p, false) && q == p
      else v < |q.items| && var r := SetPair(q, v, None);
        Shape(r) && Target(r, v) && EventPool.Reconnect(p, v, fd, events) == (Del(r, v), true) && |Chain(r, v)| < r.count
  {
    var c := p.items[v].pair.value;
    if p.count < |p.links| {
      DetachedIs(p, v, c, fd, events);
      var r := SetPair(Connect(p, c, fd, events).0, v, None);
      ChainShapes(r, v);
      assert r.count == p.count + 1 && p.count > 0;
    }
  }

  /** Where the loop of `next_event` is: `now` is `p`, or `p` once polled; positions above `i` are done. */
  ghost predicate Going(p: Pool, b: Batch, poll: seq<int>, polled: bool, now: Pool, cur: Batch, i: int) {
    && EventPool.Valid(p) && Walking(p, b) && |poll| == p.count
    && EventPool.Valid(now) && Walking(now, cur) && -1 <= i <= cur.offs && Scan(now, i) == Scan(now, cur.offs)
    && (!polled ==> now == p && cur == b)
    && (polled ==> now == Polled(p, poll) && cur == Batch(p.count - 1, Reported(p, poll), [])
                   && Scan(p, b.offs) < 0 && (exists j :: 0 <= j < p.count && poll[j] != 0))
  }

  lemma GoingStarts(p: Pool, b: Batch, poll: seq<int>)
    requires EventPool.Valid(p) && Walking(p, b) && |poll| == p.count
    ensures Going(p, b, poll, false, p, b, b.offs) == true
  {
  }

  lemma GoingOn(p: Pool, b: Batch, poll: seq<int>, polled: bool, now: Pool, cur: Batch, i: int)
    requires Going(p, b, poll, polled, now, cur, i) == true && i >= 0
    requires now.pfds[i].revents == 0 || now.items[now.links[i]].iter == now.iters
    ensures Going(p, b, poll, polled, now, cur, i - 1) == true
  {
  }

  lemma GoingFails(p: Pool, b: Batch, poll: seq<int>, polled: bool, now: Pool, cur: Batch, i: int)
    requires Going(p, b, poll, polled, now, cur, i) == true && i < 0 && forall k :: 0 <= k < p.count ==> poll[k] == 0
    ensures now == p && cur == b && Next(p, b, poll) == (p, b, None)
  {
  }

  /** The loop polls once at most. */
  lemma GoingPolls(p: Pool, b: Batch, poll: seq<int>, polled: bool, now: Pool, cur: Batch, i: int)
    requires Going(p, b, poll, polled, now, cur, i) == true && i < 0 && exists k :: 0 <= k < p.count && poll[k] != 0
    ensures !polled && now == p && p.count > 0 && Sized(p) == true
    ensures Going(p, b, poll, true, Polled(p, poll), Batch(p.count - 1, Reported(p, poll), []), p.count - 1) == true
  {
    hide Walking;
    PolledFinds(p, poll);
    PolledKeeps(p, poll);
    assert !polled && now == p;
    hide *;
    BatchBegins(p, b, poll);
  }

  lemma BatchBegins(p: Pool, b: Batch, poll: seq<int>)
    requires EventPool.Valid(p) && Walking(p, b) && |poll| == p.count && Scan(p, b.offs) < 0
    requires exists k :: 0 <= k < p.count && poll[k] != 0
    ensures Going(p, b, poll, true, Polled(p, poll), Batch(p.count - 1, Reported(p, poll), []), p.count - 1) == true
  {
    PolledKeeps(p, poll);
    hide Shape, Indexed, Aimed, Paired, Pending;
  }

  lemma GoingReturns(p: Pool, b: Batch, poll: seq<int>, polled: bool, now: Pool, cur: Batch, i: int)
    requires Going(p, b, poll, polled, now, cur, i) == true && i >= 0
    requires now.pfds[i].revents != 0 && now.items[now.links[i]].iter != now.iters
    ensures var v := now.links[i];
      && Next(p, b, poll) == (Serve(now, i), cur.(offs := i - 1, served := cur.served + [v]), Some(v))
      && v in cur.ready && cur.ready[v] == now.pfds[i].revents
  {
    if polled {
      GoingReturnsNew(p, b, poll, now, cur, i);
    } else {
      GoingReturnsSame(p, b, poll, now, cur, i);
    }
  }

  lemma GoingReturnsSame(p: Pool, b: Batch, poll: seq<int>, now: Pool, cur: Batch, i: int)
    requires Going(p, b, poll, false, now, cur, i) == true && i >= 0
    requires now.pfds[i].revents != 0 && now.items[now.links[i]].iter != now.iters
    ensures var v := now.links[i];
      && Next(p, b, poll) == (Serve(now, i), cur.(offs := i - 1, served := cur.served + [v]), Some(v))
      && v in cur.ready && cur.ready[v] == now.pfds[i].revents
  {
    assert Scan(now, i) == i;
    ServeKeeps(now, cur, i);
  }

  lemma GoingReturnsNew(p: Pool, b: Batch, poll: seq<int>, now: Pool, cur: Batch, i: int)
    requires Going(p, b, poll, true, now, cur, i) == true && i >= 0
    requires now.pfds[i].revents != 0 && now.items[now.links[i]].iter != now.iters
    ensures var v := now.links[i];
      && Next(p, b, poll) == (Serve(now, i), cur.(offs := i - 1, served := cur.served + [v]), Some(v))
      && v in cur.ready && cur.ready[v] == now.pfds[i].revents
  {
    assert Scan(now, i) == i;
    StartedIs(p, b, poll, now, cur, i);
    ServeKeeps(now, cur, i);
  }

  lemma StartedIs(p: Pool, b: Batch, poll: seq<int>, now: Pool, cur: Batch, i: nat)
    requires EventPool.Valid(p) && Walking(p, b) && |poll| == p.count && Scan(p, b.offs) < 0
    requires exists j :: 0 <= j < p.count && poll[j] != 0
    requires EventPool.Valid(now) && now == Polled(p, poll) && i == Scan(now, p.count - 1) && i < p.count
    requires cur == Batch(p.count - 1, Reported(p, poll), [])
    ensures Next(p, b, poll) == (Serve(now, i), cur.(offs := i - 1, served := cur.served + [now.links[i]]), Some(now.links[i]))
  {
    StartedForm(p, poll, cur, i);
    NextIsNew(p, b, poll);
    hide *;
    StartedKeeps(p, poll, i);
  }

  lemma StartedForm(p: Pool, poll: seq<int>, cur: Batch, i: nat)
    requires EventPool.Valid(p) && |poll| == p.count && i < p.count && cur == Batch(p.count - 1, Reported(p, poll), [])
    ensures Started(p, poll, i) == cur.(offs := i - 1, served := cur.served + [p.links[i]])
    ensures Polled(p, poll).links == p.links
  {
    assert cur.served + [p.links[i]] == [p.links[i]];
  }

  lemma NextIsNew(p: Pool, b: Batch, poll: seq<int>)
    requires EventPool.Valid(p) && Walking(p, b) && |poll| == p.count && Scan(p, b.offs) < 0
    requires exists j :: 0 <= j < p.count && poll[j] != 0
    ensures Next(p, b, poll) == NextNew(p, poll)
  {
  }

  lemma GoingAt(p: Pool, b: Batch, poll: seq<int>, polled: bool, now: Pool, cur: Batch, i: int)
    requires Going(p, b, poll, polled, now, cur, i) == true
    ensures -1 <= i < |now.links| && |now.items| == |now.pfds| == |now.links|
    ensures i >= 0 ==> now.links[i] < |now.items| && (i < now.count || now.items[now.links[i]].iter == now.iters)
  {
  }
}
