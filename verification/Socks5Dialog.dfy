/** Client and server over two byte channels, step by step, in any order. */
module Socks5Dialog {
  import opened ByteOrder
  import opened Options
  import opened Socks5Addr
  import opened Socks5Rules
  import C = Socks5Client
  import S = Socks5Server

  /** Who talks to whom, and whether the client pipelines. */
  datatype Setup = Setup(client: C.Config, pipe: bool, server: S.Config)

  predicate Sane_(p: Setup) { Sane(p.client.dest) && S.SaneWorld(p.server) }

  /** Both parties, the bytes under way in each direction, and all that was sent. */
  datatype Sys = Sys(c: C.State, s: S.State, up: Bytes, down: Bytes, sent: Bytes, answered: Bytes)

  /** The client has the bytes it waits for, or the server has closed. */
  predicate ClientCan(x: Sys) {
    !x.c.Over? && (|x.down| >= C.Need(x.c) || x.s == S.REFUSED)
  }

  predicate ServerCan(x: Sys) {
    S.Sound(x.s) && !x.s.Over? && (|x.up| >= S.Need(x.s) || x.c == C.FAILED)
  }

  function ClientStep(p: Setup, x: Sys): Sys
    requires Sane_(p) && ClientCan(x)
  {
    var n := C.Need(x.c);
    if |x.down| < n then x.(c := C.FAILED) else
    var (c, out) := C.Next(p.client, p.pipe, x.c, x.down[..n]);
    x.(c := c, up := x.up + out, down := x.down[n..], sent := x.sent + out)
  }

  function ServerStep(p: Setup, x: Sys): Sys
    requires Sane_(p) && ServerCan(x)
  {
    var n := S.Need(x.s);
    if |x.up| < n then var out := S.Short(p.server, x.s); x.(s := S.REFUSED, down := x.down + out, answered := x.answered + out) else
    var (s, out) := S.Next(p.server, x.s, x.up[..n]);
    x.(s := s, up := x.up[n..], down := x.down + out, answered := x.answered + out)
  }

  function Start(p: Setup): Sys
    requires Sane_(p)
  {
    var b := C.Start(p.client, p.pipe);
    Sys(C.AwaitMethod, S.AwaitHello, b, [], b, [])
  }

  // ---------------------------------------------------------------- the order of the steps makes no difference

  function Rank(x: Sys): nat { C.Left(x.c) + S.Left(x.s) }

  lemma StepsCount(p: Setup, x: Sys)
    requires Sane_(p)
    ensures ClientCan(x) ==> Rank(ClientStep(p, x)) < Rank(x)
    ensures ServerCan(x) ==> Rank(ServerStep(p, x)) < Rank(x)
  {
  }

  /** Where the system comes to rest when the client goes first whenever it can. */
  function End(p: Setup, x: Sys): Sys
    requires Sane_(p)
    decreases Rank(x)
  {
    StepsCount(p, x);
    if ClientCan(x) then End(p, ClientStep(p, x)) else if ServerCan(x) then End(p, ServerStep(p, x)) else x
  }

  /** Two steps that are both possible can be taken in either order. */
  lemma Commute(p: Setup, x: Sys)
    requires Sane_(p) && ClientCan(x) && ServerCan(x)
    ensures ClientCan(ServerStep(p, x)) && ServerCan(ClientStep(p, x))
    ensures ClientStep(p, ServerStep(p, x)) == ServerStep(p, ClientStep(p, x))
  {
    var (n, k) := (C.Need(x.c), S.Need(x.s));
    if |x.down| >= n && |x.up| >= k {
      var (c, up) := C.Next(p.client, p.pipe, x.c, x.down[..n]);
      var (s, down) := S.Next(p.server, x.s, x.up[..k]);
      Behind(x.down, down, n);
      Behind(x.up, up, k);
    }
  }

  lemma Behind(a: Bytes, b: Bytes, n: nat)
    requires n <= |a|
    ensures (a + b)[..n] == a[..n] && (a + b)[n..] == a[n..] + b
  {
  }

  /** No step changes where the system comes to rest. */
  lemma {:induction false} EndStays(p: Setup, x: Sys)
    requires Sane_(p)
    ensures ClientCan(x) ==> End(p, ClientStep(p, x)) == End(p, x)
    ensures ServerCan(x) ==> End(p, ServerStep(p, x)) == End(p, x)
    decreases Rank(x)
  {
    StepsCount(p, x);
    if ClientCan(x) && ServerCan(x) {
      Commute(p, x);
      EndStays(p, ClientStep(p, x));
      EndUnfolds(p, ServerStep(p, x));
    }
    EndUnfolds(p, x);
  }

  lemma EndUnfolds(p: Setup, x: Sys)
    requires Sane_(p)
    ensures End(p, x) == if ClientCan(x) then End(p, ClientStep(p, x)) else if ServerCan(x) then End(p, ServerStep(p, x)) else x
  {
    hide ClientStep, ServerStep, ClientCan, ServerCan;
  }

  /** A schedule: who takes each step. */
  predicate Possible(p: Setup, x: Sys, who: seq<bool>)
    requires Sane_(p)
    decreases |who|
  {
    who == [] || if who[0] then ClientCan(x) && Possible(p, ClientStep(p, x), who[1..]) else ServerCan(x) && Possible(p, ServerStep(p, x), who[1..])
  }

  function After(p: Setup, x: Sys, who: seq<bool>): Sys
    requires Sane_(p) && Possible(p, x, who)
    decreases |who|
  {
    if who == [] then x else if who[0] then After(p, ClientStep(p, x), who[1..]) else After(p, ServerStep(p, x), who[1..])
  }

  /** Every run is finite, and every run that stops stops in the same state. */
  lemma {:induction false} EveryRunEnds(p: Setup, x: Sys, who: seq<bool>)
    requires Sane_(p) && Possible(p, x, who)
    ensures |who| + Rank(After(p, x, who)) <= Rank(x) && End(p, After(p, x, who)) == End(p, x)
    ensures !ClientCan(After(p, x, who)) && !ServerCan(After(p, x, who)) ==> After(p, x, who) == End(p, x)
    decreases |who|
  {
    if who == [] {
      EndUnfolds(p, x);
    } else {
      StepsCount(p, x);
      EndStays(p, x);
      hide ClientStep, ServerStep, ClientCan, ServerCan, End, Rank;
      EveryRunEnds(p, if who[0] then ClientStep(p, x) else ServerStep(p, x), who[1..]);
    }
  }

  // ---------------------------------------------------------------- what the handshake comes to

  /** What authentication should come to, on both sides. */
  predicate Admits(p: Setup) {
    var (c, s) := (p.client, p.server);
    match s.users
    case None => c.user.None? || c.pass.None?
    case Some(users) =>
      c.user.Some? && c.pass.Some? && c.user.value != [] && c.pass.value != []
      && c.user.value in users && users[c.user.value] == c.pass.value
  }

  /** User, password and host name fit their length bytes. */
  predicate Fits(p: Setup) {
    p.client.user.Some? && p.client.pass.Some? ==> |p.client.user.value| <= 255 && |p.client.pass.value| <= 255
  }

  /** The client is admitted, and the command for its kind of session deserves the reply 0, with `bound` in it. */
  ghost predicate SucceedsWith(p: Setup, cmd: byte, bound: SockAddr) {
    Admits(p) && Commands(p.client.kind, cmd) && Deserves(p.server, cmd, p.client.dest, 0, bound)
  }

  ghost predicate Succeeds(p: Setup) {
    exists cmd: byte, bound: SockAddr :: SucceedsWith(p, cmd, bound)
  }

  /** How a handshake has to end: the server serves the command and the destination, or refuses, and the client knows it and has the address. */
  ghost predicate Ends(p: Setup, c: C.State, s: S.State) {
    && c.Over? && (s == S.Over(S.Refused) <==> !Succeeds(p)) && (c.ok <==> Succeeds(p) && p.client.accepts)
    && (Succeeds(p) ==>
          exists cmd: byte, bound: SockAddr ::
            SucceedsWith(p, cmd, bound) && s == S.Over(S.Served(cmd, p.client.dest)) && (c.ok ==> SockBytes(c.bound, bound)))
  }

  /**
   All that the server answers: the method and, with users, whether name and password are good; and to
   a request the reply that it deserves.
   */
  ghost predicate Answered(p: Setup, said: Bytes) {
    if !Admits(p) then
      said == if (p.client.user.Some? && p.client.pass.Some?) != p.server.users.Some? then [5, 255] else [5, 2, 1, 255]
    else
      exists cmd: byte, rep: byte, bound: SockAddr, b: Bytes :: Replied(p, said, cmd, rep, bound, b)
  }

  ghost predicate Replied(p: Setup, said: Bytes, cmd: byte, rep: byte, bound: SockAddr, b: Bytes) {
    && Commands(p.client.kind, cmd) && Deserves(p.server, cmd, p.client.dest, rep, bound) && SockBytes(b, bound)
    && said == (if p.server.users.Some? then [5, 2, 1, 0] else [5, 0]) + ([5, rep, 0] + b)
  }

  // ---------------------------------------------------------------- the stages

  /** A server step, when the bytes it waits for are in front. */
  lemma ServerMoves(p: Setup, x: Sys, b: Bytes, rest: Bytes, s: S.State, out: Bytes)
    requires Sane_(p) && S.Sound(x.s) && !x.s.Over? && x.up == b + rest && |b| == S.Need(x.s) && S.Next(p.server, x.s, b) == (s, out)
    ensures End(p, x) == End(p, x.(s := s, up := rest, down := x.down + out, answered := x.answered + out))
  {
    hide S.Next, End, S.Need;
    Behind(b, rest, |b|);
    assert b[..|b|] == b && b[|b|..] + rest == rest;
    EndStays(p, x);
  }

  lemma ClientMoves(p: Setup, x: Sys, b: Bytes, rest: Bytes, c: C.State, out: Bytes)
    requires Sane_(p) && !x.c.Over? && x.down == b + rest && |b| == C.Need(x.c) && C.Next(p.client, p.pipe, x.c, b) == (c, out)
    ensures End(p, x) == End(p, x.(c := c, down := rest, up := x.up + out, sent := x.sent + out))
  {
    hide C.Next, End, C.Need;
    Behind(b, rest, |b|);
    assert b[..|b|] == b && b[|b|..] + rest == rest;
    EndStays(p, x);
  }

  /** Both have ended: nothing moves any more. */
  lemma Rests(p: Setup, x: Sys)
    requires Sane_(p) && x.c.Over? && x.s.Over?
    ensures End(p, x) == x
  {
  }

  lemma NoMore(b: Bytes)
    ensures b + [] == b && [] + b == b
  {
  }

  /** The server refuses, and the client learns it from a two-byte answer. */
  lemma Refusal(p: Setup, x: Sys, b: Bytes)
    requires Sane_(p) && x.s == S.REFUSED && x.down == b && |b| == 2 && (x.c == C.AwaitMethod || x.c == C.AwaitCreds) && b[1] == 255
    ensures End(p, x) == x.(c := C.FAILED, down := [])
  {
    NoMore(b);
    NoMore(x.up);
    NoMore(x.sent);
    ClientMoves(p, x, b, [], C.FAILED, []);
    Rests(p, x.(c := C.FAILED, down := []));
  }

  /** Hello and the choice of a method. */
  lemma StageHello(p: Setup, more: Bytes, sent: Bytes)
    requires Sane_(p)
    ensures var m: byte := if p.server.users.Some? then 2 else 0;
      var x := Sys(C.AwaitMethod, S.AwaitHello, C.Hello(p.client) + more, [], sent, []);
      if C.HasCreds(p.client) != p.server.users.Some? then
        End(p, x) == Sys(C.FAILED, S.REFUSED, more, [], sent, [5, 255])
      else
        var out := if p.pipe then [] else if m == 2 then C.Creds(p.client) else C.Request(p.client);
        var (c, s) := if m == 2 then (C.AwaitCreds, S.AwaitUser) else (C.AwaitHead, S.AwaitHead);
        End(p, x) == End(p, Sys(c, s, more + out, [], sent + out, [5, m]))
  {
    hide End, C.Creds, C.Request;
    var m: byte := if p.server.users.Some? then 2 else 0;
    var k: byte := if C.HasCreds(p.client) then 2 else 0;
    var x := Sys(C.AwaitMethod, S.AwaitHello, C.Hello(p.client) + more, [], sent, []);
    assert C.Hello(p.client) + more == [5, 1] + ([k] + more);
    NoMore([]);
    ServerMoves(p, x, [5, 1], [k] + more, S.AwaitMethods(1), []);
    var x1 := x.(s := S.AwaitMethods(1), up := [k] + more);
    if k != m {
      NoMore([5, 255]);
      ServerMoves(p, x1, [k], more, S.REFUSED, [5, 255]);
      Refusal(p, Sys(C.AwaitMethod, S.REFUSED, more, [5, 255], sent, [5, 255]), [5, 255]);
    } else {
      var s := if m == 2 then S.AwaitUser else S.AwaitHead;
      NoMore([5, m]);
      ServerMoves(p, x1, [k], more, s, [5, m]);
      var out := if p.pipe then [] else if m == 2 then C.Creds(p.client) else C.Request(p.client);
      ClientMoves(p, Sys(C.AwaitMethod, s, more, [5, m], sent, [5, m]), [5, m], [], if m == 2 then C.AwaitCreds else C.AwaitHead, out);
    }
  }

  /** Name and password. */
  lemma StageCreds(p: Setup, more: Bytes, sent: Bytes, said: Bytes)
    requires Sane_(p) && Fits(p) && C.HasCreds(p.client) && p.server.users.Some?
    ensures var x := Sys(C.AwaitCreds, S.AwaitUser, C.Creds(p.client) + more, [], sent, said);
      if !Admits(p) then End(p, x).c == C.FAILED && End(p, x).s == S.REFUSED && End(p, x).answered == said + [1, 255]
      else
        var out := if p.pipe then [] else C.Request(p.client);
        End(p, x) == End(p, Sys(C.AwaitHead, S.AwaitHead, more + out, [], sent + out, said + [1, 0]))
  {
    var (u, w) := (p.client.user.value, p.client.pass.value);
    var ulen: byte := |u|;
    var wlen: byte := |w|;
    var x := Sys(C.AwaitCreds, S.AwaitUser, C.Creds(p.client) + more, [], sent, said);
    CredsAre(p, more);
    hide End, C.Creds, C.Request;
    NoMore([]);
    NoMore(said);
    if ulen == 0 {
      NoMore([1, 255]);
      ServerMoves(p, x, [1, ulen], u + [wlen] + w + more, S.REFUSED, [1, 255]);
      Refusal(p, x.(s := S.REFUSED, up := u + [wlen] + w + more, down := [1, 255], answered := said + [1, 255]), [1, 255]);
    } else {
      ServerMoves(p, x, [1, ulen], u + [wlen] + w + more, S.AwaitName(ulen), []);
      NamePass(p, more, sent, said, u, w);
    }
  }

  lemma CredsAre(p: Setup, more: Bytes)
    requires Fits(p) && C.HasCreds(p.client)
    ensures var (u, w) := (p.client.user.value, p.client.pass.value);
      C.Creds(p.client) + more == [1, |u|] + (u + [|w|] + w + more)
  {
    var (u, w) := (p.client.user.value, p.client.pass.value);
    assert u[..|u|] == u && w[..|w|] == w;
    assert C.Creds(p.client) == [1, |u|] + u + [|w|] + w;
  }

  /** The name, the password and the answer. */
  lemma NamePass(p: Setup, more: Bytes, sent: Bytes, said: Bytes, u: Bytes, w: Bytes)
    requires Sane_(p) && Fits(p) && C.HasCreds(p.client) && p.server.users.Some?
    requires u == p.client.user.value && w == p.client.pass.value && u != []
    ensures var x := Sys(C.AwaitCreds, S.AwaitName(|u|), u + [|w|] + w + more, [], sent, said);
      if !Admits(p) then End(p, x).c == C.FAILED && End(p, x).s == S.REFUSED && End(p, x).answered == said + [1, 255]
      else
        var out := if p.pipe then [] else C.Request(p.client);
        End(p, x) == End(p, Sys(C.AwaitHead, S.AwaitHead, more + out, [], sent + out, said + [1, 0]))
  {
    var ulen: byte := |u|;
    var wlen: byte := |w|;
    var x := Sys(C.AwaitCreds, S.AwaitName(ulen), u + [wlen] + w + more, [], sent, said);
    hide End, C.Request;
    assert u + [wlen] + w + more == (u + [wlen]) + (w + more);
    assert (u + [wlen])[ulen] == wlen && (u + [wlen])[..ulen] == u;
    NoMore([]);
    NoMore(said);
    if wlen == 0 {
      NoMore([1, 255]);
      ServerMoves(p, x, u + [wlen], w + more, S.REFUSED, [1, 255]);
      Refusal(p, x.(s := S.REFUSED, up := w + more, down := [1, 255], answered := said + [1, 255]), [1, 255]);
    } else {
      ServerMoves(p, x, u + [wlen], w + more, S.AwaitPass(u, wlen), []);
      Pass(p, more, sent, said, u, w);
    }
  }

  lemma Pass(p: Setup, more: Bytes, sent: Bytes, said: Bytes, u: Bytes, w: Bytes)
    requires Sane_(p) && Fits(p) && C.HasCreds(p.client) && p.server.users.Some?
    requires u == p.client.user.value && w == p.client.pass.value && u != [] && w != []
    ensures var x := Sys(C.AwaitCreds, S.AwaitPass(u, |w|), w + more, [], sent, said);
      if !Admits(p) then End(p, x).c == C.FAILED && End(p, x).s == S.REFUSED && End(p, x).answered == said + [1, 255]
      else
        var out := if p.pipe then [] else C.Request(p.client);
        End(p, x) == End(p, Sys(C.AwaitHead, S.AwaitHead, more + out, [], sent + out, said + [1, 0]))
  {
    hide End, C.Request;
    var x := Sys(C.AwaitCreds, S.AwaitPass(u, |w|), w + more, [], sent, said);
    if S.Knows(p.server, u, w) {
      NoMore([1, 0]);
      ServerMoves(p, x, w, more, S.AwaitHead, [1, 0]);
      var out := if p.pipe then [] else C.Request(p.client);
      ClientMoves(p, x.(s := S.AwaitHead, up := more, down := [1, 0], answered := said + [1, 0]), [1, 0], [], C.AwaitHead, out);
    } else {
      NoMore([1, 255]);
      ServerMoves(p, x, w, more, S.REFUSED, [1, 255]);
      Refusal(p, x.(s := S.REFUSED, up := more, down := [1, 255], answered := said + [1, 255]), [1, 255]);
    }
  }

  /** The request and the response. */
  lemma StageRequest(p: Setup, sent: Bytes, said: Bytes)
    requires Sane_(p)
    ensures var z := End(p, Sys(C.AwaitHead, S.AwaitHead, C.Request(p.client), [], sent, said));
      var end := S.Ending(p.server, C.Cmd(p.client.kind), p.client.dest).1;
      && z.s == end && z.sent == sent && z.up == [] && z.c.Over? && (z.c.ok <==> end != S.REFUSED && p.client.accepts)
      && var resp := S.Ending(p.server, C.Cmd(p.client.kind), p.client.dest).0;
         |resp| > 3 && z.answered == said + resp && (z.c.ok ==> z.c.bound == resp[3..])
  {
    var (q, dest, cmd) := (C.Request(p.client), p.client.dest, C.Cmd(p.client.kind));
    var x := Sys(C.AwaitHead, S.AwaitHead, q, [], sent, said);
    RequestIs(p);
    hide End, C.Request, S.Ending;
    NoMore([]);
    NoMore(said);
    ServerMoves(p, x, q[..5], q[5..], S.AwaitDest(q[..5]), []);
    NoMore(q[5..]);
    var (resp, end) := S.Ending(p.server, cmd, dest);
    NoMore(resp);
    ServerMoves(p, x.(s := S.AwaitDest(q[..5]), up := q[5..]), q[5..], [], end, resp);
    ReadResponse(p, end, sent, said + resp, resp);
  }

  /** The request is a head of five bytes and the rest of the address. */
  lemma RequestIs(p: Setup)
    requires Sane_(p)
    ensures var (q, dest, cmd) := (C.Request(p.client), p.client.dest, C.Cmd(p.client.kind));
      && |q| >= 7 && q == q[..5] + q[5..] && q[0] == 5 && q[1] == cmd && AddrLen(q[3], q[4]) > 0 && |q[5..]| == AddrLen(q[3], q[4]) - 2
      && q[..5][3..] + q[5..] == Encode(dest) && Decode(Encode(dest)) == Some(dest)
      && S.Next(p.server, S.AwaitHead, q[..5]) == (S.AwaitDest(q[..5]), [])
      && S.Sound(S.AwaitDest(q[..5]))
      && S.Next(p.server, S.AwaitDest(q[..5]), q[5..]) == (S.Ending(p.server, cmd, dest).1, S.Ending(p.server, cmd, dest).0)
  {
    var (q, a, cmd) := (C.Request(p.client), Encode(p.client.dest), C.Cmd(p.client.kind));
    EncodeDecodes(p.client.dest, []);
    NoMore(a);
    assert q[3..] == a && q[3] == a[0] && q[4] == a[1];
    assert q[..5][3..] + q[5..] == a;
  }

  /** The client reads the response: a head of four bytes and the rest of the address. */
  lemma ReadResponse(p: Setup, end: S.State, sent: Bytes, said: Bytes, resp: Bytes)
    requires Sane_(p)
    requires (resp, end) == S.Ending(p.server, C.Cmd(p.client.kind), p.client.dest)
    ensures var z := End(p, Sys(C.AwaitHead, end, [], resp, sent, said));
      z.s == end && z.sent == sent && z.up == [] && z.c.Over? && (z.c.ok <==> end != S.REFUSED && p.client.accepts)
      && z.answered == said && |resp| > 3 && (z.c.ok ==> z.c.bound == resp[3..])
  {
    ResponseIs(p);
    hide End, S.Ending;
    if resp[1] == 0 {
      ReadGood(p, end, sent, said, resp);
    } else {
      var x := Sys(C.AwaitHead, end, [], resp, sent, said);
      NoMore([]);
      NoMore(sent);
      ClientMoves(p, x, resp[..4], resp[4..], C.FAILED, []);
      Rests(p, x.(c := C.FAILED, down := resp[4..]));
    }
  }

  lemma ReadGood(p: Setup, end: S.State, sent: Bytes, said: Bytes, resp: Bytes)
    requires Sane_(p) && end.Over?
    requires |resp| >= 10 && resp == resp[..4] + resp[4..] && resp[0] == 5 && resp[1] == 0
    requires (resp[3] == IPV4 || resp[3] == IPV6) && |resp[4..]| == if resp[3] == IPV4 then 6 else 18
    ensures End(p, Sys(C.AwaitHead, end, [], resp, sent, said))
         == Sys(if p.client.accepts then C.Over(true, resp[3..]) else C.FAILED, end, [], [], sent, said)
  {
    hide End;
    var x := Sys(C.AwaitHead, end, [], resp, sent, said);
    var (head, rest) := (resp[..4], resp[4..]);
    NoMore([]);
    NoMore(sent);
    NoMore(rest);
    var c := C.AwaitAddr(head[3]);
    ClientMoves(p, x, head, rest, c, []);
    var last := if p.client.accepts then C.Over(true, [head[3]] + rest) else C.FAILED;
    assert [head[3]] + rest == resp[3..];
    ClientMoves(p, x.(c := c, down := rest), rest, [], last, []);
    Rests(p, x.(c := last, down := []));
  }

  lemma ResponseIs(p: Setup)
    requires Sane_(p)
    ensures var (resp, end) := S.Ending(p.server, C.Cmd(p.client.kind), p.client.dest);
      && |resp| >= 10 && resp == resp[..4] + resp[4..] && resp[0] == 5 && (resp[1] == 0 <==> end != S.REFUSED) && end.Over?
      && (resp[3] == IPV4 || resp[3] == IPV6) && |resp[4..]| == if resp[3] == IPV4 then 6 else 18
  {
  }

  // ---------------------------------------------------------------- the handshake

  /** How the handshake ends, with either client, what was said on both sides, and that nothing is left over. */
  lemma Outcome(p: Setup)
    requires Sane_(p) && Fits(p)
    ensures var z := End(p, Start(p));
      Ends(p, z.c, z.s) && Answered(p, z.answered) && (Succeeds(p) ==> Says(p.client, z.sent) && z.up == [])
  {
    var (hello, creds, q) := (C.Hello(p.client), C.Creds(p.client), C.Request(p.client));
    var more := if p.pipe then creds + q else [];
    NoMore(hello);
    assert hello + creds + q == hello + (creds + q);
    StageHello(p, more, C.Start(p.client, p.pipe));
    NotAdmitted(p);
    if C.HasCreds(p.client) && p.server.users.Some? {
      hide End, C.Hello, C.Creds, C.Request, S.Ending, Ends, Answered, Says, Succeeds;
      var ahead := if p.pipe then q else [];
      var sent := if p.pipe then hello + creds + q else hello + creds;
      NoMore(more);
      NoMore(creds);
      NoMore(C.Start(p.client, p.pipe));
      StageCreds(p, ahead, sent, [5, 2]);
      NoMore(q);
      NoMore(sent);
      if Admits(p) {
        StageRequest(p, hello + creds + q, [5, 2] + [1, 0]);
        AllSaid(p, End(p, Start(p)));
      } else {
        Unsaid(p, End(p, Start(p)));
      }
    } else if !C.HasCreds(p.client) && p.server.users.None? {
      hide End, C.Hello, C.Creds, C.Request, S.Ending, Ends, Answered, Says, Succeeds;
      NoCreds(p);
      NoMore(q);
      NoMore(C.Start(p.client, p.pipe));
      StageRequest(p, hello + creds + q, [5, 0]);
      AllSaid(p, End(p, Start(p)));
    } else {
      hide End;
      Unsaid(p, End(p, Start(p)));
    }
  }

  lemma NotAdmitted(p: Setup)
    ensures !Admits(p) ==> !Succeeds(p)
    ensures Admits(p) ==> C.HasCreds(p.client) == p.server.users.Some?
    ensures C.HasCreds(p.client) == (p.client.user.Some? && p.client.pass.Some?)
    ensures p.server.users.None? && !C.HasCreds(p.client) ==> Admits(p)
  {
  }

  lemma Unsaid(p: Setup, z: Sys)
    requires !Admits(p) && z.c == C.FAILED && z.s == S.REFUSED
    requires z.answered == if (p.client.user.Some? && p.client.pass.Some?) != p.server.users.Some? then [5, 255] else [5, 2] + [1, 255]
    ensures Ends(p, z.c, z.s) && Answered(p, z.answered) && !Succeeds(p)
  {
  }

  /** Client and server as the request leaves them. */
  lemma AllSaid(p: Setup, z: Sys)
    requires Sane_(p) && Fits(p) && Admits(p) && z.up == [] && z.sent == C.Hello(p.client) + C.Creds(p.client) + C.Request(p.client)
    requires var (resp, end) := S.Ending(p.server, C.Cmd(p.client.kind), p.client.dest);
      && z.s == end && z.c.Over? && (z.c.ok <==> end != S.REFUSED && p.client.accepts)
      && |resp| > 3 && z.answered == (if p.server.users.Some? then [5, 2] + [1, 0] else [5, 0]) + resp && (z.c.ok ==> z.c.bound == resp[3..])
    ensures Ends(p, z.c, z.s) && Answered(p, z.answered) && Says(p.client, z.sent)
  {
    hide Deserves, S.Ending, SockBytes, Says, Commands, Admits, Ends, Answered;
    var cmd := C.Cmd(p.client.kind);
    ClientSays(p.client);
    var rep, bound, b := EndingIs(p.server, cmd, p.client.dest);
    assert ([5, rep, 0] + b)[3..] == b;
    AnsweredSo(p, z.answered, cmd, rep, bound, b);
    EndsSo(p, z, cmd, rep, bound, b);
  }

  lemma AnsweredSo(p: Setup, said: Bytes, cmd: byte, rep: byte, bound: SockAddr, b: Bytes)
    requires Admits(p) && Commands(p.client.kind, cmd) && Deserves(p.server, cmd, p.client.dest, rep, bound) && SockBytes(b, bound)
    requires said == (if p.server.users.Some? then [5, 2] + [1, 0] else [5, 0]) + ([5, rep, 0] + b)
    ensures Answered(p, said)
  {
    assert Replied(p, said, cmd, rep, bound, b) by {
      hide Deserves, SockBytes, Commands;
    }
    hide Admits, Replied;
  }

  lemma EndsSo(p: Setup, z: Sys, cmd: byte, rep: byte, bound: SockAddr, b: Bytes)
    requires Admits(p) && cmd == C.Cmd(p.client.kind) && Commands(p.client.kind, cmd)
    requires Deserves(p.server, cmd, p.client.dest, rep, bound) && SockBytes(b, bound)
    requires z.c.Over? && z.s == S.Over(if rep == 0 then S.Served(cmd, p.client.dest) else S.Refused)
    requires (z.c.ok <==> rep == 0 && p.client.accepts) && (z.c.ok ==> z.c.bound == b)
    ensures Ends(p, z.c, z.s)
  {
    hide Deserves, SockBytes, Admits;
    if rep == 0 {
      assert SucceedsWith(p, cmd, bound);
    } else if Succeeds(p) {
      var cmd': byte, bound': SockAddr :| SucceedsWith(p, cmd', bound');
      DeservesOnce(p.server, cmd, p.client.dest, rep, bound, 0, bound');
    }
  }

  lemma NoCreds(p: Setup)
    requires !C.HasCreds(p.client)
    ensures C.Creds(p.client) == []
  {
  }

  /**
   Whatever the order of the steps, every run that stops has ended on both sides; the server then
   serves exactly the requested command and address, or has refused, and the client agrees with it.
   */
  lemma EveryHandshake(p: Setup, who: seq<bool>)
    requires Sane_(p) && Fits(p) && Possible(p, Start(p), who)
    requires var z := After(p, Start(p), who); !ClientCan(z) && !ServerCan(z)
    ensures var z := After(p, Start(p), who);
      Ends(p, z.c, z.s) && Answered(p, z.answered) && (Succeeds(p) ==> Says(p.client, z.sent) && z.up == [])
  {
    hide End, Start, ClientCan, ServerCan, After, Possible, Succeeds, Ends, Answered, Says;
    EveryRunEnds(p, Start(p), who);
    Outcome(p);
  }

  /** The standard and the pipelining client come to the same verdict, and send the same bytes when it is a success. */
  lemma PipeliningMakesNoDifference(p: Setup, who: seq<bool>, who': seq<bool>)
    requires Sane_(p) && Fits(p)
    requires var q := p.(pipe := true);
      var q' := p.(pipe := false);
      && Possible(q, Start(q), who) && !ClientCan(After(q, Start(q), who)) && !ServerCan(After(q, Start(q), who))
      && Possible(q', Start(q'), who') && !ClientCan(After(q', Start(q'), who')) && !ServerCan(After(q', Start(q'), who'))
    ensures var q := p.(pipe := true);
      var q' := p.(pipe := false);
      var (z, z') := (After(q, Start(q), who), After(q', Start(q'), who'));
      && z.c.Over? && z'.c.Over? && z.c.ok == z'.c.ok && z.s == z'.s && (z.c.ok ==> z.sent == z'.sent && z.s != S.REFUSED)
  {
    var (q, q') := (p.(pipe := true), p.(pipe := false));
    hide End, Start, ClientCan, ServerCan, After, Possible, Succeeds, Ends, Answered, Says;
    EveryRunEnds(q, Start(q), who);
    EveryRunEnds(q', Start(q'), who');
    Outcome(q);
    Outcome(q');
    SameEnds(p, After(q, Start(q), who), After(q', Start(q'), who'));
  }

  /** Both clients end as the setup says, which does not mention pipelining. */
  lemma SameEnds(p: Setup, z: Sys, z': Sys)
    requires var (q, q') := (p.(pipe := true), p.(pipe := false));
      && Ends(q, z.c, z.s) && Ends(q', z'.c, z'.s) && (Succeeds(q) ==> Says(q.client, z.sent)) && (Succeeds(q') ==> Says(q'.client, z'.sent))
    ensures z.c.Over? && z'.c.Over? && z.c.ok == z'.c.ok && z.s == z'.s && (z.c.ok ==> z.sent == z'.sent && z.s != S.REFUSED)
  {
    var (q, q') := (p.(pipe := true), p.(pipe := false));
    hide Deserves, Says, SockBytes, Admits;
    forall cmd: byte, bound: SockAddr
      ensures SucceedsWith(q, cmd, bound) <==> SucceedsWith(q', cmd, bound)
    {
      SameAdmits(p);
    }
    assert Succeeds(q) == Succeeds(q');
    if Succeeds(q) {
      SaysOnce(p.client, z.sent, z'.sent);
    }
  }

  lemma SameAdmits(p: Setup)
    ensures Admits(p.(pipe := true)) == Admits(p.(pipe := false)) == Admits(p)
  {
  }
}
