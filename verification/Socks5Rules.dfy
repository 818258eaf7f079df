/**
 What RFC 1928 and RFC 1929 ask for, in numbers: the bytes that a client sends, the requests that a
 server serves and the replies it gives, and the answers that a client takes for a success.
 */
module Socks5Rules {
  import opened ByteOrder
  import opened Options
  import opened Socks5Addr
  import C = Socks5Client
  import S = Socks5Server

  // ---------------------------------------------------------------- addresses

  /** Section 5 of RFC 1928: the type of the address, the address, and the port. */
  ghost predicate AddrBytes(b: Bytes, a: Addr) {
    match a
    case Ipv4(ip, port) => |ip| == 4 && |port| == 2 && b == [1] + ip + port
    case Name(host, port) => |host| <= 255 && |port| == 2 && b == [3, |host|] + host + port
    case Ipv6(ip, port) => |ip| == 16 && |port| == 2 && b == [4] + ip + port
  }

  lemma EncodeIs(a: Addr)
    requires Sane(a)
    ensures AddrBytes(Encode(a), a)
  {
  }

  lemma AddrBytesOnly(b: Bytes, a: Addr)
    requires AddrBytes(b, a)
    ensures Sane(a) && b == Encode(a)
  {
  }

  /** A socket address in a reply: an IPv4-mapped one travels as an IPv4 address. */
  ghost predicate SockBytes(b: Bytes, s: SockAddr) {
    && |s.ip| == 16 && |s.port| == 2
    && if s.ip[..12] == [0, 0, 0, 0, 0, 0, 0, 0, 0, 0, 255, 255] then b == [1] + s.ip[12..] + s.port else b == [4] + s.ip + s.port
  }

  lemma SockBytesIs(s: SockAddr)
    requires SaneSock(s)
    ensures SockBytes(Encode(FromSock(s)), s)
  {
    assert s.ip[12..16] == s.ip[12..];
  }

  // ---------------------------------------------------------------- the client

  /** The command that a kind of session asks for. */
  ghost predicate Commands(k: C.Kind, cmd: byte) {
    (k.Tcp? ==> cmd == 1) && (k.UdpInUdp? ==> cmd == 3) && (k.UdpInTcp? ==> cmd == 5)
  }

  /** Sections 3 and 4 of RFC 1928, section 2 of RFC 1929: all that a client has to say. */
  ghost predicate Says(c: C.Config, sent: Bytes) {
    exists cmd: byte, addr: Bytes :: Commands(c.kind, cmd) && AddrBytes(addr, c.dest) &&
      if c.user.Some? && c.pass.Some? then
        && |c.user.value| <= 255 && |c.pass.value| <= 255
        && sent == [5, 1, 2] + ([1, |c.user.value|] + c.user.value + [|c.pass.value|] + c.pass.value) + ([5, cmd, 0] + addr)
      else sent == [5, 1, 0] + ([5, cmd, 0] + addr)
  }

  lemma SaysOnce(c: C.Config, a: Bytes, b: Bytes)
    requires Says(c, a) && Says(c, b)
    ensures a == b
  {
    var cmd: byte, x: Bytes :| Commands(c.kind, cmd) && AddrBytes(x, c.dest);
    AddrBytesOnly(x, c.dest);
  }

  lemma ClientSays(c: C.Config)
    requires Sane(c.dest) && (c.user.Some? && c.pass.Some? ==> |c.user.value| <= 255 && |c.pass.value| <= 255)
    ensures Says(c, C.Hello(c) + C.Creds(c) + C.Request(c)) && Commands(c.kind, C.Cmd(c.kind))
  {
    EncodeIs(c.dest);
    assert Commands(c.kind, C.Cmd(c.kind)) && AddrBytes(Encode(c.dest), c.dest);
    if c.user.Some? && c.pass.Some? {
      var (u, w) := (c.user.value, c.pass.value);
      assert u[..|u|] == u && w[..|w|] == w;
    } else {
      assert C.Hello(c) + C.Creds(c) == C.Hello(c);
    }
  }

  /** What a client takes for a success: no authentication or a good one, and a reply of 0 with an address that is not a name. */
  ghost predicate Good(c: C.Config, input: Bytes, bound: Bytes) {
    c.accepts && exists m: byte, rsv: byte, rest: Bytes :: GoodReply(input, bound, m, rsv, rest)
  }

  ghost predicate GoodReply(input: Bytes, bound: Bytes, m: byte, rsv: byte, rest: Bytes) {
    && (m == 0 || m == 2) && bound != [] && (bound[0] == 1 || bound[0] == 4) && |bound| == (if bound[0] == 1 then 7 else 19)
    && input == [5, m] + ((if m == 2 then [1, 0] else []) + (([5, 0, rsv] + bound) + rest))
  }

  /** The verdict of the client, standard or pipelining, on whatever arrives. */
  lemma ClientTakes(c: C.Config, pipe: bool, input: Bytes, bound: Bytes)
    requires Sane(c.dest)
    ensures C.Run(c, pipe, C.AwaitMethod, input).1 == C.Over(true, bound) <==> Good(c, input, bound)
  {
    if C.Run(c, pipe, C.AwaitMethod, input).1 == C.Over(true, bound) {
      ClientTook(c, pipe, input, bound);
    }
    if Good(c, input, bound) {
      var m: byte, rsv: byte, rest: Bytes :| GoodReply(input, bound, m, rsv, rest);
      GoodRuns(c, pipe, input, m, rsv, bound, rest);
    }
  }

  lemma GoodRuns(c: C.Config, pipe: bool, input: Bytes, m: byte, rsv: byte, bound: Bytes, rest: Bytes)
    requires Sane(c.dest) && c.accepts && GoodReply(input, bound, m, rsv, rest)
    ensures C.Run(c, pipe, C.AwaitMethod, input).1 == C.Over(true, bound)
  {
    var creds := if m == 2 then [1, 0] else [];
    var tail := [5, 0, rsv] + bound + rest;
    C.MethodRuns(c, pipe, input);
    assert input[2..] == creds + tail;
    if m == 2 {
      C.CredsRuns(c, pipe, creds + tail);
      assert (creds + tail)[2..] == tail;
    } else {
      assert creds + tail == tail;
    }
    C.HeadRun(c, pipe, tail);
    ReplyEnds(c, tail, rsv, bound, rest);
  }

  lemma ReplyEnds(c: C.Config, tail: Bytes, rsv: byte, bound: Bytes, rest: Bytes)
    requires c.accepts && bound != [] && (bound[0] == 1 || bound[0] == 4) && |bound| == (if bound[0] == 1 then 7 else 19)
    requires tail == [5, 0, rsv] + bound + rest
    ensures C.HeadEnd(c, tail) == C.Over(true, bound)
  {
    var n := if bound[0] == 1 then 6 else 18;
    assert tail[3] == bound[0] && [bound[0]] + tail[4..4 + n] == bound;
  }

  lemma ClientTook(c: C.Config, pipe: bool, input: Bytes, bound: Bytes)
    requires Sane(c.dest) && C.Run(c, pipe, C.AwaitMethod, input).1 == C.Over(true, bound)
    ensures Good(c, input, bound)
  {
    hide C.Run, C.HeadEnd, C.Creds, C.Request;
    C.MethodRuns(c, pipe, input);
    assert |input| >= 2 && input[0] == 5 && (input[1] == 0 || input[1] == 2);
    var m := input[1];
    var creds := if m == 2 then [1, 0] else [];
    var tail := input[2..];
    if m == 2 {
      C.CredsRuns(c, pipe, tail);
      assert |tail| >= 2 && tail[0] == 1 && tail[1] == 0;
      tail := tail[2..];
    }
    assert input[2..] == creds + tail;
    C.HeadRun(c, pipe, tail);
    EndsReply(c, tail, bound);
    GoodIs(input, bound, m, creds, tail);
  }

  lemma GoodIs(input: Bytes, bound: Bytes, m: byte, creds: Bytes, tail: Bytes)
    requires |input| >= 2 && input[0] == 5 && input[1] == m && (m == 0 || m == 2) && creds == (if m == 2 then [1, 0] else [])
    requires input[2..] == creds + tail
    requires bound != [] && (bound[0] == 1 || bound[0] == 4) && |bound| == (if bound[0] == 1 then 7 else 19)
    requires |tail| >= 3 + |bound| && tail == ([5, 0, tail[2]] + bound) + tail[3 + |bound|..]
    ensures GoodReply(input, bound, m, tail[2], tail[3 + |bound|..])
  {
    assert input == [5, m] + input[2..];
  }

  lemma EndsReply(c: C.Config, tail: Bytes, bound: Bytes)
    requires C.HeadEnd(c, tail) == C.Over(true, bound)
    ensures c.accepts && bound != [] && (bound[0] == 1 || bound[0] == 4) && |bound| == (if bound[0] == 1 then 7 else 19)
    ensures |tail| >= 3 + |bound| && tail == ([5, 0, tail[2]] + bound) + tail[3 + |bound|..]
  {
    var n := if tail[3] == 1 then 6 else 18;
    assert bound == tail[3..4 + n];
  }

  // ---------------------------------------------------------------- the server

  /** The socket address of a destination, if there is one: IPv4 is mapped, and a name is what it resolves to. */
  ghost predicate Reaches(s: S.Config, a: Addr, sock: SockAddr) {
    match a
    case Ipv4(ip, port) => sock == SockAddr([0, 0, 0, 0, 0, 0, 0, 0, 0, 0, 255, 255] + ip, port)
    case Ipv6(ip, port) => sock == SockAddr(ip, port)
    case Name(host, port) => s.names(host, port) == Some(sock) && |sock.ip| == 16 && |sock.port| == 2
  }

  /**
   Sections 4 and 6 of RFC 1928: the reply to a command, and the address in it.  A destination without
   a socket address is answered 8, an unknown command 7, a connection that fails 4, a socket that
   cannot be had 1, and what works 0.
   */
  ghost predicate Deserves(s: S.Config, cmd: byte, a: Addr, rep: byte, bound: SockAddr) {
    if !(exists sock :: Reaches(s, a, sock)) then rep == 8 && bound == s.junk
    else
      exists sock :: Reaches(s, a, sock) &&
        match cmd
        case 1 => bound == sock && rep == (if s.connects(sock) then 0 else 4)
        case 3 =>
          if exists b :: s.binds(sock) == Some(b) && |b.ip| == 16 && |b.port| == 2 then rep == 0 && s.binds(sock) == Some(bound)
          else rep == 1 && bound == sock
        case 5 => bound == sock && rep == (if s.opens then 0 else 1)
        case _ => bound == sock && rep == 7
  }

  lemma ResolveIs(s: S.Config, a: Addr, sock: SockAddr)
    requires Sane(a)
    ensures Reaches(s, a, sock) <==> S.Resolve(s, a) == Some(sock)
  {
  }

  /** What the server answers to a request is what it deserves, and it serves what it answers 0. */
  lemma EndingIs(s: S.Config, cmd: byte, a: Addr) returns (rep: byte, bound: SockAddr, b: Bytes)
    requires S.SaneWorld(s) && Sane(a)
    ensures Deserves(s, cmd, a, rep, bound) && SockBytes(b, bound)
    ensures S.Ending(s, cmd, a) == ([5, rep, 0] + b, if rep == 0 then S.Over(S.Served(cmd, a)) else S.Over(S.Refused))
  {
    var sock := S.Resolve(s, a);
    if sock == None {
      forall x
        ensures !Reaches(s, a, x)
      {
        ResolveIs(s, a, x);
      }
      rep, bound := 8, s.junk;
    } else {
      ResolveIs(s, a, sock.value);
      rep, bound := S.Serve(s, cmd, sock.value).0, S.Serve(s, cmd, sock.value).1;
    }
    b := Encode(FromSock(bound));
    SockBytesIs(bound);
  }

  /** There is one such reply. */
  lemma DeservesOnce(s: S.Config, cmd: byte, a: Addr, rep: byte, bound: SockAddr, rep': byte, bound': SockAddr)
    requires Deserves(s, cmd, a, rep, bound) && Deserves(s, cmd, a, rep', bound')
    ensures rep == rep' && bound == bound'
  {
  }

  /** What authentication reads: nothing without users, and a known name with its password, neither of them empty, otherwise. */
  ghost predicate Known(s: S.Config, creds: Bytes) {
    match s.users
    case None => creds == []
    case Some(users) => exists u: Bytes, w: Bytes :: u in users && users[u] == w && 0 < |u| < 256 && 0 < |w| < 256
                                                   && creds == [1, |u|] + u + [|w|] + w
  }

  /** A request for `cmd` to `dest` behind a hello with the method that the server wants. */
  ghost predicate Requests(s: S.Config, input: Bytes, cmd: byte, dest: Addr, methods: Bytes, creds: Bytes, rsv: byte, addr: Bytes, rest: Bytes) {
    && |methods| < 256 && (if s.users.Some? then 2 else 0) in methods && Known(s, creds) && AddrBytes(addr, dest)
    && input == [5, |methods|] + methods + (creds + ([5, cmd, rsv] + addr + rest))
  }

  ghost predicate Asks(s: S.Config, input: Bytes, cmd: byte, dest: Addr) {
    exists methods: Bytes, creds: Bytes, rsv: byte, addr: Bytes, rest: Bytes :: Requests(s, input, cmd, dest, methods, creds, rsv, addr, rest)
  }

  /** On whatever arrives, the server serves exactly what is asked for and deserves the reply 0. */
  lemma ServerServes(s: S.Config, input: Bytes, cmd: byte, dest: Addr)
    requires S.SaneWorld(s)
    ensures S.Run(s, S.AwaitHello, input).1 == S.Over(S.Served(cmd, dest)) <==>
      Asks(s, input, cmd, dest) && exists bound :: Deserves(s, cmd, dest, 0, bound)
  {
    if S.Run(s, S.AwaitHello, input).1 == S.Over(S.Served(cmd, dest)) {
      ServerServed(s, input, cmd, dest);
    }
    if Asks(s, input, cmd, dest) && exists bound :: Deserves(s, cmd, dest, 0, bound) {
      var methods: Bytes, creds: Bytes, rsv: byte, addr: Bytes, rest: Bytes :|
        Requests(s, input, cmd, dest, methods, creds, rsv, addr, rest);
      RequestRuns(s, input, cmd, dest, methods, creds, rsv, addr, rest);
    }
  }

  lemma RequestRuns(s: S.Config, input: Bytes, cmd: byte, dest: Addr, methods: Bytes, creds: Bytes, rsv: byte, addr: Bytes, rest: Bytes)
    requires S.SaneWorld(s) && Requests(s, input, cmd, dest, methods, creds, rsv, addr, rest)
    requires exists bound :: Deserves(s, cmd, dest, 0, bound)
    ensures S.Run(s, S.AwaitHello, input).1 == S.Over(S.Served(cmd, dest))
  {
    hide S.Run, S.AuthUser, S.AuthMethod, Deserves, AddrBytes;
    var tail := [5, cmd, rsv] + addr + rest;
    HelloReads(s, input, methods, creds + tail);
    S.MethodRuns(s, input);
    if s.users.Some? {
      CredsRead(s, creds, tail);
      S.UserRuns(s, creds + tail);
    } else {
      assert creds + tail == tail;
    }
    HeadServes(s, tail, cmd, dest, rsv, addr, rest);
  }

  lemma HelloReads(s: S.Config, input: Bytes, methods: Bytes, more: Bytes)
    requires |methods| < 256 && input == [5, |methods|] + methods + more
    ensures S.AuthMethod(s, input) == if (if s.users.Some? then 2 else 0) in methods then (if s.users.Some? then 2 else 0, more) else (-1, [])
  {
    var n := |methods|;
    assert input[2..] == methods + more && (methods + more)[..n] == methods && (methods + more)[n..] == more;
  }

  lemma CredsRead(s: S.Config, creds: Bytes, more: Bytes)
    requires s.users.Some? && Known(s, creds)
    ensures S.AuthUser(s, creds + more) == (true, more)
  {
    var users := s.users.value;
    var u: Bytes, w: Bytes :| u in users && users[u] == w && 0 < |u| < 256 && 0 < |w| < 256 && creds == [1, |u|] + u + [|w|] + w;
    CredsParts(u, w, more);
    var y := w + more;
    var x := u + [|w|] + y;
    assert S.AuthPass(s, u, |w|, y) == (true, more);
    assert S.AuthName(s, |u|, x) == (true, more);
  }

  lemma CredsParts(u: Bytes, w: Bytes, more: Bytes)
    requires 0 < |u| < 256 && 0 < |w| < 256
    ensures var y := w + more;
      var x := u + [|w|] + y;
      var z := [1, |u|] + u + [|w|] + w + more;
      && |z| >= 2 && z[0] == 1 && z[1] == |u| && z[2..] == x
      && |x| >= |u| + 1 && x[..|u|] == u && x[|u|] == |w| && x[|u| + 1..] == y
      && y[..|w|] == w && y[|w|..] == more
  {
    var x := u + [|w|] + (w + more);
    assert [1, |u|] + u + [|w|] + w + more == [1, |u|] + x;
  }

  lemma HeadServes(s: S.Config, tail: Bytes, cmd: byte, dest: Addr, rsv: byte, addr: Bytes, rest: Bytes)
    requires S.SaneWorld(s) && AddrBytes(addr, dest) && tail == [5, cmd, rsv] + addr + rest
    requires exists bound :: Deserves(s, cmd, dest, 0, bound)
    ensures S.Run(s, S.AwaitHead, tail).1 == S.Over(S.Served(cmd, dest))
  {
    AddrBytesOnly(addr, dest);
    EncodeDecodes(dest, []);
    assert addr + [] == addr;
    hide S.Run, S.Ending, AddrBytes, Encode, Decode, AddrLen, S.Response, Deserves;
    HeadParts(tail, cmd, rsv, addr, rest);
    S.HeadRuns(s, tail);
    S.DestRuns(s, tail[..5], tail[5..]);
    var bound :| Deserves(s, cmd, dest, 0, bound);
    var rep, b, x := EndingIs(s, cmd, dest);
    DeservesOnce(s, cmd, dest, rep, b, 0, bound);
  }

  lemma HeadParts(tail: Bytes, cmd: byte, rsv: byte, addr: Bytes, rest: Bytes)
    requires |addr| >= 4 && tail == [5, cmd, rsv] + addr + rest
    ensures |tail| >= 7 && tail[0] == 5 && tail[1] == cmd && tail[3] == addr[0] && tail[4] == addr[1]
    ensures tail[..5][3..] + tail[5..][..|addr| - 2] == addr
  {
  }

  lemma ServerServed(s: S.Config, input: Bytes, cmd: byte, dest: Addr)
    requires S.SaneWorld(s) && S.Run(s, S.AwaitHello, input).1 == S.Over(S.Served(cmd, dest))
    ensures Asks(s, input, cmd, dest) && exists bound :: Deserves(s, cmd, dest, 0, bound)
  {
    S.MethodRuns(s, input);
    var methods, more := ReadHello(s, input);
    hide S.Run, S.AuthMethod, Deserves, AddrBytes, Known;
    var creds, tail := ReadCreds(s, input, more);
    var rsv, addr, rest := ServedHead(s, tail, cmd, dest);
    assert Requests(s, input, cmd, dest, methods, creds, rsv, addr, rest);
  }

  lemma ReadHello(s: S.Config, input: Bytes) returns (methods: Bytes, more: Bytes)
    requires S.AuthMethod(s, input).0 >= 0
    ensures more == S.AuthMethod(s, input).1 && |methods| < 256 && (if s.users.Some? then 2 else 0) in methods
    ensures input == [5, |methods|] + methods + more
  {
    var n: nat := input[1];
    methods, more := input[2..][..n], input[2..][n..];
    assert input[2..] == methods + more;
  }

  lemma ReadCreds(s: S.Config, input: Bytes, more: Bytes) returns (creds: Bytes, tail: Bytes)
    requires S.SaneWorld(s) && S.AuthMethod(s, input).0 >= 0 && more == S.AuthMethod(s, input).1
    requires S.Run(s, S.AwaitHello, input).1 != S.REFUSED
    ensures more == creds + tail && Known(s, creds) && S.Run(s, S.AwaitHead, tail).1 == S.Run(s, S.AwaitHello, input).1
  {
    S.MethodRuns(s, input);
    if s.users.None? {
      creds, tail := [], more;
    } else {
      hide S.Run;
      S.UserRuns(s, more);
      creds, tail := KnownUser(s, more);
    }
  }

  lemma KnownUser(s: S.Config, more: Bytes) returns (creds: Bytes, tail: Bytes)
    requires s.users.Some? && S.AuthUser(s, more).0
    ensures more == creds + tail && Known(s, creds) && tail == S.AuthUser(s, more).1
  {
    var n: nat := more[1];
    var x := more[2..];
    var k: nat := x[n];
    var (u, y) := (x[..n], x[n + 1..]);
    var w := y[..k];
    creds, tail := [1, |u|] + u + [|w|] + w, y[k..];
    assert s.users.value[u] == w && w != [] && u != [];
    CredsWhole(more, n, k);
  }

  lemma CredsWhole(more: Bytes, n: nat, k: nat)
    requires |more| >= 3 + n + k && more[0] == 1 && more[1] == n && more[2 + n] == k
    ensures var x := more[2..];
      var (u, y) := (x[..n], x[n + 1..]);
      more == [1, n] + u + [k] + y[..k] + y[k..]
  {
    var x := more[2..];
    var (u, y) := (x[..n], x[n + 1..]);
    assert x == u + [k] + y && y == y[..k] + y[k..] && more == [1, n] + x;
  }

  lemma ServedHead(s: S.Config, tail: Bytes, cmd: byte, dest: Addr) returns (rsv: byte, addr: Bytes, rest: Bytes)
    requires S.SaneWorld(s) && S.Run(s, S.AwaitHead, tail).1 == S.Over(S.Served(cmd, dest))
    ensures AddrBytes(addr, dest) && tail == [5, cmd, rsv] + addr + rest
    ensures exists bound :: Deserves(s, cmd, dest, 0, bound)
  {
    hide S.Run, S.Ending, AddrBytes, Encode, Decode, S.Response, Deserves, AddrLen;
    S.HeadRuns(s, tail);
    assert |tail| >= 5 && tail[0] == 5 && AddrLen(tail[3], tail[4]) > 0;
    var n := AddrLen(tail[3], tail[4]) - 2;
    S.DestRuns(s, tail[..5], tail[5..]);
    assert |tail[5..]| >= n;
    rsv, addr, rest := tail[2], tail[..5][3..] + tail[5..][..n], tail[5 + n..];
    assert addr[0] == tail[3] && addr[1] == tail[4] && addr[..n + 2] == addr;
    DecodeEncodes(addr);
    var a := Decode(addr).value;
    EncodeIs(a);
    var rep, bound, b := EndingIs(s, tail[1], a);
    assert tail == [5, tail[1], rsv] + addr + rest;
  }

  /** A request that cannot be read: nothing when it is cut off, 1 for another version, 8 for an unknown or incomplete address. */
  lemma HeadRefused(s: S.Config, tail: Bytes) returns (b: Bytes)
    requires S.SaneWorld(s)
    ensures SockBytes(b, s.junk)
    ensures var refused := S.Over(S.Refused);
      && (|tail| < 5 ==> S.Run(s, S.AwaitHead, tail) == ([], refused))
      && (|tail| >= 5 && tail[0] != 5 ==> S.Run(s, S.AwaitHead, tail) == ([5, 1, 0] + b, refused))
      && (|tail| >= 5 && tail[0] == 5 && tail[3] != 1 && tail[3] != 3 && tail[3] != 4 ==> S.Run(s, S.AwaitHead, tail) == ([5, 8, 0] + b, refused))
      && (|tail| >= 5 && tail[0] == 5 && (tail[3] == 1 || tail[3] == 3 || tail[3] == 4)
          && |tail| < 3 + (if tail[3] == 1 then 7 else if tail[3] == 4 then 19 else 4 + tail[4] as int) ==>
            S.Run(s, S.AwaitHead, tail) == ([5, 8, 0] + b, refused))
  {
    b := Encode(FromSock(s.junk));
    SockBytesIs(s.junk);
    S.HeadRuns(s, tail);
    if |tail| >= 5 && tail[0] == 5 && AddrLen(tail[3], tail[4]) > 0 {
      S.DestRuns(s, tail[..5], tail[5..]);
    }
    hide S.Run, SockBytes;
  }
}
