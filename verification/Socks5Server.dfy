/** The server side of the SOCKS5 handshake. */
module Socks5Server {
  import opened ByteOrder
  import opened Options
  import opened Socks5Addr
  import opened Socks5Stream

  const METHOD_NONE: byte := 0
  const METHOD_USER: byte := 2
  const DENY: byte := 255

  const SUCC: byte := 0
  const FAIL: byte := 1
  const HOST: byte := 4
  const IMPL: byte := 7
  const BAD_ADDR: byte := 8

  /**
   The users, if there is an authenticator, and what the world answers: how a name resolves, whether
   connecting works, what address a datagram socket gets bound to, whether one can be opened, and
   what happens to be in an address that was never filled in.
   */
  datatype Config = Config(users: Option<map<Bytes, Bytes>>, names: (Bytes, Bytes) -> Option<SockAddr>, connects: SockAddr -> bool,
                           binds: SockAddr -> Option<SockAddr>, opens: bool, junk: SockAddr)

  predicate SaneWorld(c: Config) {
    SaneSock(c.junk)
  }

  /** Whether name and password belong together. */
  predicate Knows(c: Config, name: Bytes, pass: Bytes) {
    c.users.Some? && name in c.users.value && c.users.value[name] == pass
  }

  /** What the handshake comes to: the command and the destination that were asked for, or a refusal. */
  datatype Verdict = Served(cmd: byte, dest: Addr) | Refused

  datatype State = AwaitHello | AwaitMethods(n: byte) | AwaitUser | AwaitName(nlen: byte) | AwaitPass(name: Bytes, plen: byte)
                 | AwaitHead | AwaitDest(head: Bytes) | Over(verdict: Verdict)

  function Need(s: State): nat {
    match s
    case AwaitHello => 2
    case AwaitMethods(n) => n
    case AwaitUser => 2
    case AwaitName(nlen) => nlen + 1
    case AwaitPass(_, plen) => plen
    case AwaitHead => 5
    case AwaitDest(head) => if |head| < 5 then 0 else if AddrLen(head[3], head[4]) < 4 then 0 else AddrLen(head[3], head[4]) - 2
    case Over(_) => 0
  }

  /** What a state has to satisfy. */
  predicate Sound(s: State) {
    && (s.AwaitDest? ==> |s.head| == 5 && AddrLen(s.head[3], s.head[4]) > 0)
    && (s.AwaitName? ==> s.nlen != 0) && (s.AwaitPass? ==> s.plen != 0 && s.name != [])
  }

  const REFUSED := Over(Refused)

  function Response(rep: byte, a: SockAddr): Bytes
    requires SaneSock(a)
  {
    [5, rep, 0] + Encode(FromSock(a))
  }

  /** hev_socks5_addr_into_sockaddr6 */
  function Resolve(c: Config, a: Addr): (s: Option<SockAddr>)
    requires Sane(a)
    ensures s.Some? ==> SaneSock(s.value)
  {
    if !a.Name? then Some(IntoSock(a)) else
    var s := c.names(a.host, a.port);
    if s.Some? && SaneSock(s.value) then s else None
  }

  /** What serving the command comes to: the reply and the address in it. */
  function Serve(c: Config, cmd: byte, a: SockAddr): (r: (byte, SockAddr))
    requires SaneSock(a)
    ensures SaneSock(r.1)
  {
    if cmd == 1 then (if c.connects(a) then SUCC else HOST, a)
    else if cmd == 3 then
      var b := c.binds(a);
      if b.Some? && SaneSock(b.value) then (SUCC, b.value) else (FAIL, a)
    else if cmd == 5 then (if c.opens then SUCC else FAIL, a)
    else (IMPL, a)
  }

  /** What the server does with the bytes it waited for, and what it sends then. */
  function Next(c: Config, s: State, b: Bytes): (r: (State, Bytes))
    requires SaneWorld(c) && Sound(s) && |b| == Need(s) && !s.Over?
    ensures Sound(r.0)
  {
    match s
    case AwaitHello => if b[0] != 5 then (REFUSED, [5, DENY]) else (AwaitMethods(b[1]), [])
    case AwaitMethods(_) =>
      var method_ := if c.users.Some? then METHOD_USER else METHOD_NONE;
      if method_ in b then (if c.users.Some? then AwaitUser else AwaitHead, [5, method_]) else (REFUSED, [5, DENY])
    case AwaitUser => if b[0] != 1 || b[1] == 0 then (REFUSED, [1, DENY]) else (AwaitName(b[1]), [])
    case AwaitName(nlen) => if b[nlen] == 0 then (REFUSED, [1, DENY]) else (AwaitPass(b[..nlen], b[nlen]), [])
    case AwaitPass(name, _) => if Knows(c, name, b) then (AwaitHead, [1, 0]) else (REFUSED, [1, DENY])
    case AwaitHead =>
      if b[0] != 5 then (REFUSED, Response(FAIL, c.junk))
      else if AddrLen(b[3], b[4]) < 0 then (REFUSED, Response(BAD_ADDR, c.junk))
      else (AwaitDest(b), [])
    case AwaitDest(head) =>
      DestDecodes(head, b);
      var a := Decode(head[3..] + b).value;
      var sock := Resolve(c, a);
      if sock == None then (REFUSED, Response(BAD_ADDR, c.junk)) else
      var (rep, bound) := Serve(c, head[1], sock.value);
      (if rep == SUCC then Over(Served(head[1], a)) else REFUSED, Response(rep, bound))
  }

  /** What it sends when the client closes early. */
  function Short(c: Config, s: State): Bytes
    requires SaneWorld(c) && !s.Over?
  {
    match s
    case AwaitHello => [5, DENY]
    case AwaitMethods(_) => [5, DENY]
    case AwaitUser => [1, DENY]
    case AwaitName(_) => [1, DENY]
    case AwaitPass(_, _) => [1, DENY]
    case AwaitHead => []
    case AwaitDest(_) => Response(BAD_ADDR, c.junk)
  }

  /** The rest of the address completes what the head began. */
  lemma DestDecodes(head: Bytes, b: Bytes)
    requires |head| == 5 && AddrLen(head[3], head[4]) > 0 && |b| == AddrLen(head[3], head[4]) - 2
    ensures Decode(head[3..] + b).Some?
  {
    var x := head[3..] + b;
    assert x[0] == head[3] && x[1] == head[4];
  }

  function Left(s: State): nat {
    match s
    case AwaitHello => 7
    case AwaitMethods(_) => 6
    case AwaitUser => 5
    case AwaitName(_) => 4
    case AwaitPass(_, _) => 3
    case AwaitHead => 2
    case AwaitDest(_) => 1
    case Over(_) => 0
  }

  /** A whole run on all that ever arrives. */
  ghost function Run(c: Config, s: State, input: Bytes): (Bytes, State)
    requires SaneWorld(c) && Sound(s)
    decreases Left(s)
  {
    if s.Over? then ([], s)
    else if |input| < Need(s) then (Short(c, s), REFUSED)
    else
      var (s', out) := Next(c, s, input[..Need(s)]);
      var (more, end) := Run(c, s', input[Need(s)..]);
      (out + more, end)
  }

  lemma RunStep(c: Config, s: State, input: Bytes, n: nat)
    requires SaneWorld(c) && Sound(s) && !s.Over? && n == Need(s) <= |input|
    ensures var (s', out) := Next(c, s, input[..n]);
      Run(c, s, input) == (out + Run(c, s', input[n..]).0, Run(c, s', input[n..]).1)
  {
  }

  lemma RunOver(c: Config, s: State, input: Bytes)
    requires SaneWorld(c) && Sound(s) && (s.Over? || |input| < Need(s))
    ensures Run(c, s, input) == if s.Over? then ([], s) else (Short(c, s), REFUSED)
  {
  }

  /** A step that ends the run. */
  lemma RunEnds(c: Config, s: State, input: Bytes, n: nat)
    requires SaneWorld(c) && Sound(s) && !s.Over? && n == Need(s) <= |input| && Next(c, s, input[..n]).0.Over?
    ensures Run(c, s, input) == (Next(c, s, input[..n]).1, Next(c, s, input[..n]).0)
  {
    var (s', out) := Next(c, s, input[..n]);
    RunStep(c, s, input, n);
    RunOver(c, s', input[n..]);
    assert out + [] == out;
  }

  /** A step that sends nothing. */
  lemma RunSilent(c: Config, s: State, input: Bytes, n: nat)
    requires SaneWorld(c) && Sound(s) && !s.Over? && n == Need(s) <= |input| && Next(c, s, input[..n]).1 == []
    ensures Run(c, s, input) == Run(c, Next(c, s, input[..n]).0, input[n..])
  {
    var s' := Next(c, s, input[..n]).0;
    RunStep(c, s, input, n);
    assert [] + Run(c, s', input[n..]).0 == Run(c, s', input[n..]).0;
  }

  // ---------------------------------------------------------------- the code

  class Server {
    const config: Config
    const sock: Stream
    var verdict: Verdict

    constructor (config: Config, sock: Stream)
      ensures this.config == config && this.sock == sock && verdict == Refused
    {
      this.config, this.sock, verdict := config, sock, Refused;
    }

    /** The method to use, or -1. */
    method ReadAuthMethod() returns (res: int)
      requires SaneWorld(config)
      modifies sock
      ensures sock.sent == old(sock.sent) && res == AuthMethod(config, old(sock.input)).0
      ensures res >= 0 ==> sock.input == AuthMethod(config, old(sock.input)).1
    {
      var head := sock.Recv(2);
      if |head| != 2 || head[0] != 5 {
        return -1;
      }
      var methods := sock.Recv(head[1]);
      if |methods| != head[1] {
        return -1;
      }
      var method_ := if config.users.Some? then METHOD_USER else METHOD_NONE;
      res := -1;
      for i := 0 to |methods|
        invariant method_ !in methods[..i] && res == -1
      {
        if methods[i] == method_ {
          return method_ as int;
        }
      }
      assert methods == methods[..|methods|];
    }

    method WriteAuthMethod(auth_method: int)
      requires -1 <= auth_method < 256
      modifies sock
      ensures sock.input == old(sock.input) && sock.sent == old(sock.sent) + [5, if auth_method < 0 then 255 else auth_method]
    {
      sock.Send([5, auth_method % 256]);
    }

    method ReadAuthUser() returns (res: int)
      modifies sock
      ensures sock.sent == old(sock.sent) && (res == 0 || res == -1)
      ensures (res == 0) == AuthUser(config, old(sock.input)).0 && (res == 0 ==> sock.input == AuthUser(config, old(sock.input)).1)
    {
      var head := sock.Recv(2);
      if |head| != 2 || head[0] != 1 {
        return -1;
      }
      var nlen: nat := head[1];
      if nlen == 0 {
        return -1;
      }
      ghost var rest := sock.input;
      var name := sock.Recv(nlen + 1);
      if |name| != nlen + 1 {
        return -1;
      }
      var plen: nat := name[nlen];
      if plen == 0 {
        return -1;
      }
      assert name[..nlen] == rest[..nlen];
      var pass := sock.Recv(plen);
      if |pass| != plen {
        return -1;
      }
      if !Knows(config, name[..nlen], pass) {
        return -1;
      }
      return 0;
    }

    method WriteAuthUser(authRes: int)
      requires authRes == 0 || authRes == -1
      modifies sock
      ensures sock.input == old(sock.input) && sock.sent == old(sock.sent) + [1, if authRes < 0 then 255 else 0]
    {
      sock.Send([1, authRes % 256]);
    }

    /** Authentication: what was said in it is what the run says up to there. */
    method Auth() returns (res: int, ghost said: Bytes)
      requires SaneWorld(config)
      modifies sock
      ensures sock.sent == old(sock.sent) + said && (res == 0 || res == -1)
      ensures Run(config, AwaitHello, old(sock.input)) ==
              if res < 0 then (said, REFUSED) else (said + Run(config, AwaitHead, sock.input).0, Run(config, AwaitHead, sock.input).1)
    {
      ghost var input := sock.input;
      MethodRuns(config, input);
      var method_ := ReadAuthMethod();
      WriteAuthMethod(method_);
      said := [5, if method_ < 0 then 255 else method_];
      res := 0;
      if method_ == METHOD_USER as int {
        UserRuns(config, sock.input);
        res := ReadAuthUser();
        WriteAuthUser(res);
        ghost var answer: Bytes := [1, if res < 0 then DENY else 0];
        SentTwice(old(sock.sent), said, answer, Run(config, AwaitHead, sock.input).0);
        said := said + answer;
      } else if method_ != METHOD_NONE as int {
        res := -1;
      }
    }

    /** The command, the reply that is due already, and the address. */
    method ReadRequest() returns (res: int, cmd: byte, rep: byte, addr: SockAddr, ghost dest: Addr)
      requires SaneWorld(config)
      modifies sock
      ensures sock.sent == old(sock.sent) && SaneSock(addr) && (res == 0 || res == -1)
      ensures Run(config, AwaitHead, old(sock.input)) ==
              if res < 0 then ([], REFUSED)
              else if rep != SUCC then (Response(rep, addr), REFUSED)
              else var (r, bound) := Serve(config, cmd, addr);
                   (Response(r, bound), if r == SUCC then Over(Served(cmd, dest)) else REFUSED)
    {
      ghost var input := sock.input;
      HeadRuns(config, input);
      res, cmd, rep, addr, dest := 0, 0, SUCC, config.junk, Ipv4([], []);
      var req := sock.Recv(5);
      if |req| != 5 {
        res := -1;
        return;
      }
      if req[0] != 5 {
        rep := FAIL;
        return;
      }
      var addrlen: int := if req[3] == IPV4 then 5 else if req[3] == IPV6 then 17 else if req[3] == NAME then 2 + (req[4] as int) else -1;
      if addrlen < 0 {
        rep := BAD_ADDR;
        return;
      }
      DestRuns(config, req, sock.input);
      var rest := sock.Recv(addrlen);
      if |rest| != addrlen {
        rep := BAD_ADDR;
        return;
      }
      DestDecodes(req, rest);
      dest := Decode(req[3..] + rest).value;
      var resolved := Resolve(config, Decode(req[3..] + rest).value);
      if resolved == None {
        rep := BAD_ADDR;
        return;
      }
      addr, cmd := resolved.value, req[1];
    }

    method WriteResponse(rep: byte, addr: SockAddr)
      requires SaneSock(addr)
      modifies sock
      ensures sock.input == old(sock.input) && sock.sent == old(sock.sent) + Response(rep, addr)
    {
      sock.Send([5, rep, 0] + Encode(FromSock(addr)));
    }

    /** The handshake: what is sent and how it ends is what the run says. */
    method Handshake() returns (res: int, ghost end: State)
      requires SaneWorld(config)
      modifies sock
      ensures sock.sent == old(sock.sent) + Run(config, AwaitHello, old(sock.input)).0
      ensures end == Run(config, AwaitHello, old(sock.input)).1 && end.Over? && (res == 0 <==> end != REFUSED)
    {
      ghost var sent := sock.sent;
      ghost var said;
      res, said := Auth();
      end := REFUSED;
      if res < 0 {
        return;
      }
      var cmd, rep, addr;
      ghost var dest;
      res, cmd, rep, addr, dest := ReadRequest();
      if res < 0 {
        assert said + [] == said;
        return;
      }
      if rep == SUCC {
        match cmd {
          case 1 =>
            if !config.connects(addr) {
              rep := HOST;
            }
          case 3 =>
            var bound := config.binds(addr);
            if bound.Some? && SaneSock(bound.value) {
              addr := bound.value;
            } else {
              rep := FAIL;
            }
          case 5 =>
            if !config.opens {
              rep := FAIL;
            }
          case _ => rep := IMPL;
        }
      }
      WriteResponse(rep, addr);
      Joined(sent, said, Response(rep, addr));
      if rep != SUCC {
        return -1, REFUSED;
      }
      end := Over(Served(cmd, dest));
    }
  }

  lemma Joined(a: Bytes, b: Bytes, c: Bytes)
    ensures a + b + c == a + (b + c)
  {
  }

  /** The run through hello and methods. */
  lemma MethodRuns(c: Config, input: Bytes)
    requires SaneWorld(c)
    ensures var (m, rest) := AuthMethod(c, input);
      if m < 0 then m == -1 && Run(c, AwaitHello, input) == ([5, DENY], REFUSED)
      else
        var s := if m == METHOD_USER as int then AwaitUser else AwaitHead;
        (m == METHOD_USER as int || m == METHOD_NONE as int) && Run(c, AwaitHello, input) == ([5, m] + Run(c, s, rest).0, Run(c, s, rest).1)
  {
    if |input| < 2 {
      RunOver(c, AwaitHello, input);
    } else if input[0] != 5 {
      RunEnds(c, AwaitHello, input, 2);
    } else {
      RunSilent(c, AwaitHello, input, 2);
      var (s, rest) := (AwaitMethods(input[1]), input[2..]);
      if |rest| < input[1] {
        RunOver(c, s, rest);
      } else if AuthMethod(c, input).0 < 0 {
        RunEnds(c, s, rest, input[1]);
      } else {
        RunStep(c, s, rest, input[1]);
      }
    }
  }

  /** The run through name and password. */
  lemma UserRuns(c: Config, input: Bytes)
    requires SaneWorld(c)
    ensures var (ok, rest) := AuthUser(c, input);
      Run(c, AwaitUser, input) == if ok then ([1, 0] + Run(c, AwaitHead, rest).0, Run(c, AwaitHead, rest).1) else ([1, DENY], REFUSED)
  {
    if |input| < 2 {
      RunOver(c, AwaitUser, input);
    } else if input[0] != 1 || input[1] == 0 {
      RunEnds(c, AwaitUser, input, 2);
    } else {
      RunSilent(c, AwaitUser, input, 2);
      NameRuns(c, input[1], input[2..]);
    }
  }

  lemma NameRuns(c: Config, nlen: byte, input: Bytes)
    requires SaneWorld(c) && nlen != 0
    ensures var (ok, rest) := AuthName(c, nlen, input);
      Run(c, AwaitName(nlen), input) == if ok then ([1, 0] + Run(c, AwaitHead, rest).0, Run(c, AwaitHead, rest).1) else ([1, DENY], REFUSED)
  {
    var n: nat := nlen;
    if |input| < n + 1 {
      RunOver(c, AwaitName(nlen), input);
    } else if input[n] == 0 {
      RunEnds(c, AwaitName(nlen), input, n + 1);
    } else {
      assert input[..n + 1][..n] == input[..n];
      RunSilent(c, AwaitName(nlen), input, n + 1);
      PassRuns(c, input[..n], input[n], input[n + 1..]);
    }
  }

  lemma PassRuns(c: Config, name: Bytes, plen: byte, input: Bytes)
    requires SaneWorld(c) && name != [] && plen != 0
    ensures var (ok, rest) := AuthPass(c, name, plen, input);
      Run(c, AwaitPass(name, plen), input) == if ok then ([1, 0] + Run(c, AwaitHead, rest).0, Run(c, AwaitHead, rest).1) else ([1, DENY], REFUSED)
  {
    var s := AwaitPass(name, plen);
    if |input| < plen {
      RunOver(c, s, input);
    } else if Knows(c, name, input[..plen]) {
      RunStep(c, s, input, plen);
    } else {
      RunEnds(c, s, input, plen);
    }
  }

  /** The run from the request on. */
  lemma HeadRuns(c: Config, input: Bytes)
    requires SaneWorld(c)
    ensures |input| < 5 ==> Run(c, AwaitHead, input) == ([], REFUSED)
    ensures |input| >= 5 && input[0] != 5 ==> Run(c, AwaitHead, input) == (Response(FAIL, c.junk), REFUSED)
    ensures |input| >= 5 && input[0] == 5 && AddrLen(input[3], input[4]) < 0 ==> Run(c, AwaitHead, input) == (Response(BAD_ADDR, c.junk), REFUSED)
    ensures |input| >= 5 && input[0] == 5 && AddrLen(input[3], input[4]) > 0 ==>
      Run(c, AwaitHead, input) == Run(c, AwaitDest(input[..5]), input[5..])
  {
    if |input| < 5 {
      RunOver(c, AwaitHead, input);
    } else if input[0] != 5 || AddrLen(input[3], input[4]) < 0 {
      RunEnds(c, AwaitHead, input, 5);
    } else {
      RunSilent(c, AwaitHead, input, 5);
    }
  }

  lemma DestRuns(c: Config, head: Bytes, input: Bytes)
    requires SaneWorld(c) && |head| == 5 && AddrLen(head[3], head[4]) > 0
    ensures var n := AddrLen(head[3], head[4]) - 2;
      if |input| < n then Run(c, AwaitDest(head), input) == (Response(BAD_ADDR, c.junk), REFUSED)
      else Decode(head[3..] + input[..n]).Some? && Run(c, AwaitDest(head), input) == Ending(c, head[1], Decode(head[3..] + input[..n]).value)
  {
    var n := AddrLen(head[3], head[4]) - 2;
    if |input| < n {
      RunOver(c, AwaitDest(head), input);
    } else {
      DestDecodes(head, input[..n]);
      RunEnds(c, AwaitDest(head), input, n);
    }
  }

  /** The response to a request, and the verdict. */
  function Ending(c: Config, cmd: byte, a: Addr): (r: (Bytes, State))
    requires SaneWorld(c) && Sane(a)
    ensures r.1.Over?
  {
    var sock := Resolve(c, a);
    if sock == None then (Response(BAD_ADDR, c.junk), REFUSED) else
    var (rep, bound) := Serve(c, cmd, sock.value);
    (Response(rep, bound), if rep == SUCC then Over(Served(cmd, a)) else REFUSED)
  }

  /** Hello and methods: the method to use, or -1, and what is left to read. */
  ghost function AuthMethod(c: Config, input: Bytes): (int, Bytes) {
    if |input| < 2 || input[0] != 5 then (-1, []) else AuthMethods(c, input[1], input[2..])
  }

  ghost function AuthMethods(c: Config, n: nat, input: Bytes): (int, Bytes) {
    var method_ := if c.users.Some? then METHOD_USER else METHOD_NONE;
    if |input| >= n && method_ in input[..n] then (method_, input[n..]) else (-1, [])
  }

  /** Name and password: whether they are good, and what is left to read. */
  ghost function AuthUser(c: Config, input: Bytes): (bool, Bytes) {
    if |input| < 2 || input[0] != 1 || input[1] == 0 then (false, []) else AuthName(c, input[1], input[2..])
  }

  ghost function AuthName(c: Config, nlen: nat, input: Bytes): (bool, Bytes) {
    if |input| < nlen + 1 || input[nlen] == 0 then (false, []) else AuthPass(c, input[..nlen], input[nlen], input[nlen + 1..])
  }

  ghost function AuthPass(c: Config, name: Bytes, plen: nat, input: Bytes): (bool, Bytes) {
    if |input| < plen || !Knows(c, name, input[..plen]) then (false, []) else (true, input[plen..])
  }

  lemma SentTwice(sent: Bytes, a: Bytes, b: Bytes, more: Bytes)
    ensures sent + a + b == sent + (a + b) && a + (b + more) == (a + b) + more
  {
  }
}
