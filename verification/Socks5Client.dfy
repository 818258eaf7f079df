/** The client side of the SOCKS5 handshake, in its standard and its pipelined form. */
module Socks5Client {
  import opened ByteOrder
  import opened Options
  import opened Socks5Addr
  import opened Socks5Stream

  const METHOD_NONE: byte := 0
  const METHOD_USER: byte := 2

  datatype Kind = Tcp | UdpInTcp | UdpInUdp

  /** `user` and `pass` may be missing; `accepts` is what set_upstream_addr answers. */
  datatype Config = Config(user: Option<Bytes>, pass: Option<Bytes>, kind: Kind, dest: Addr, accepts: bool)

  function Cmd(k: Kind): byte {
    match k case Tcp => 1 case UdpInTcp => 5 case UdpInUdp => 3
  }

  predicate HasCreds(c: Config) { c.user.Some? && c.pass.Some? }

  function Hello(c: Config): Bytes { [5, 1, if HasCreds(c) then METHOD_USER else METHOD_NONE] }

  /** The lengths are stored in a byte, and that many bytes of the strings are sent. */
  function Creds(c: Config): Bytes {
    if !HasCreds(c) then [] else
    var (u, p) := (c.user.value, c.pass.value);
    [1, |u| % 256] + u[..|u| % 256] + [|p| % 256] + p[..|p| % 256]
  }

  function Request(c: Config): Bytes
    requires Sane(c.dest)
  {
    [5, Cmd(c.kind), 0] + Encode(c.dest)
  }

  /** What the client waits for; at the end, whether it succeeded and the address it was told. */
  datatype State = AwaitMethod | AwaitCreds | AwaitHead | AwaitAddr(atype: byte) | Over(ok: bool, bound: Bytes)

  function Need(s: State): nat {
    match s
    case AwaitMethod => 2
    case AwaitCreds => 2
    case AwaitHead => 4
    case AwaitAddr(atype) => if atype == IPV4 then 6 else 18
    case Over(_, _) => 0
  }

  const FAILED := Over(false, [])

  function Start(c: Config, pipe: bool): Bytes
    requires Sane(c.dest)
  {
    if pipe then Hello(c) + Creds(c) + Request(c) else Hello(c)
  }

  /** What the client does with the bytes it waited for, and what it sends then. */
  function Next(c: Config, pipe: bool, s: State, b: Bytes): (State, Bytes)
    requires Sane(c.dest) && |b| == Need(s) && !s.Over?
  {
    match s
    case AwaitMethod =>
      if b[0] != 5 then (FAILED, [])
      else if b[1] == METHOD_USER then (AwaitCreds, if pipe then [] else Creds(c))
      else if b[1] == METHOD_NONE then (AwaitHead, if pipe then [] else Request(c))
      else (FAILED, [])
    case AwaitCreds => if b[0] != 1 || b[1] != 0 then (FAILED, []) else (AwaitHead, if pipe then [] else Request(c))
    case AwaitHead => if b[0] != 5 || b[1] != 0 || b[3] !in {IPV4, IPV6} then (FAILED, []) else (AwaitAddr(b[3]), [])
    case AwaitAddr(atype) => (if c.accepts then Over(true, [atype] + b) else FAILED, [])
  }

  /** A whole run on all that ever arrives: what is sent, and how it ends. */
  ghost function Run(c: Config, pipe: bool, s: State, input: Bytes): (Bytes, State)
    requires Sane(c.dest)
    decreases Left(s)
  {
    if s.Over? then ([], s)
    else if |input| < Need(s) then ([], FAILED)
    else
      var (s', out) := Next(c, pipe, s, input[..Need(s)]);
      var (more, end) := Run(c, pipe, s', input[Need(s)..]);
      (out + more, end)
  }

  function Left(s: State): nat {
    match s case AwaitMethod => 4 case AwaitCreds => 3 case AwaitHead => 2 case AwaitAddr(_) => 1 case Over(_, _) => 0
  }

  lemma RunStep(c: Config, pipe: bool, s: State, input: Bytes, n: nat)
    requires Sane(c.dest) && !s.Over? && n == Need(s) <= |input|
    ensures var (s', out) := Next(c, pipe, s, input[..n]);
      Run(c, pipe, s, input) == (out + Run(c, pipe, s', input[n..]).0, Run(c, pipe, s', input[n..]).1)
  {
  }

  lemma RunOver(c: Config, pipe: bool, s: State, input: Bytes)
    requires Sane(c.dest) && (s.Over? || |input| < Need(s))
    ensures Run(c, pipe, s, input) == ([], if s.Over? then s else FAILED)
  {
  }

  lemma RunFails(c: Config, pipe: bool, s: State, input: Bytes, n: nat)
    requires Sane(c.dest) && !s.Over? && n == Need(s) <= |input| && Next(c, pipe, s, input[..n]) == (FAILED, [])
    ensures Run(c, pipe, s, input) == ([], FAILED)
  {
    RunStep(c, pipe, s, input, n);
    RunOver(c, pipe, FAILED, input[n..]);
    var none: Bytes := [];
    assert none + none == none;
  }

  // ---------------------------------------------------------------- the code

  class Client {
    const config: Config
    const sock: Stream
    var bound: Bytes

    constructor (config: Config, sock: Stream)
      ensures this.config == config && this.sock == sock && bound == []
    {
      this.config, this.sock, bound := config, sock, [];
    }

    method WriteAuthMethods()
      modifies sock
      ensures sock.input == old(sock.input) && sock.sent == old(sock.sent) + Hello(config)
    {
      var method_ := METHOD_USER;
      if config.user == None || config.pass == None {
        method_ := METHOD_NONE;
      }
      sock.Send([5, 1, method_]);
    }

    method WriteAuthCreds()
      modifies sock
      ensures sock.input == old(sock.input) && sock.sent == old(sock.sent) + Creds(config)
    {
      if config.user == None || config.pass == None {
        return;
      }
      var (user, pass) := (config.user.value, config.pass.value);
      var (ulen, plen) := (|user| % 256, |pass| % 256);
      sock.Send([1, ulen] + user[..ulen] + [plen] + pass[..plen]);
    }

    method WriteRequest()
      requires Sane(config.dest)
      modifies sock
      ensures sock.input == old(sock.input) && sock.sent == old(sock.sent) + Request(config)
    {
      var cmd: byte := 1;
      match config.kind {
        case Tcp => cmd := 1;
        case UdpInTcp => cmd := 5;
        case UdpInUdp => cmd := 3;
      }
      sock.Send([5, cmd, 0] + Encode(config.dest));
    }

    /** The method the server chose, or -1. */
    method ReadAuthMethod() returns (res: int)
      modifies sock
      ensures sock.sent == old(sock.sent)
      ensures |old(sock.input)| < 2 ==> res == -1
      ensures |old(sock.input)| >= 2 ==> sock.input == old(sock.input)[2..] && res == if old(sock.input)[0] != 5 then -1 else old(sock.input)[1]
    {
      var b := sock.Recv(2);
      if |b| != 2 || b[0] != 5 {
        return -1;
      }
      return b[1];
    }

    method ReadAuthCreds() returns (res: int)
      modifies sock
      ensures sock.sent == old(sock.sent) && (res == 0 || res == -1)
      ensures |old(sock.input)| < 2 ==> res == -1
      ensures |old(sock.input)| >= 2 ==> sock.input == old(sock.input)[2..] && (res == 0 <==> old(sock.input)[0] == 1 && old(sock.input)[1] == 0)
    {
      var b := sock.Recv(2);
      if |b| != 2 || b[0] != 1 || b[1] != 0 {
        return -1;
      }
      return 0;
    }

    method ReadResponse() returns (res: int)
      requires Sane(config.dest)
      modifies sock, this`bound
      ensures sock.sent == old(sock.sent) && (res == 0 || res == -1)
      ensures forall pipe: bool :: Run(config, pipe, AwaitHead, old(sock.input)) == ([], if res == 0 then Over(true, bound) else FAILED)
    {
      ghost var input := sock.input;
      HeadRuns(config, input);
      var b := sock.Recv(4);
      if |b| != 4 || b[0] != 5 || b[1] != 0 {
        return -1;
      }
      var addrlen := 6;
      if b[3] == IPV6 {
        addrlen := 18;
      } else if b[3] != IPV4 {
        return -1;
      }
      var addr := sock.Recv(addrlen);
      if |addr| != addrlen || !config.accepts {
        return -1;
      }
      bound := [b[3]] + addr;
      return 0;
    }

    method HandshakeStandard() returns (res: int)
      requires Sane(config.dest)
      modifies sock, this`bound
      ensures var (out, end) := Run(config, false, AwaitMethod, old(sock.input));
        sock.sent == old(sock.sent) + Start(config, false) + out && end == if res == 0 then Over(true, bound) else FAILED
    {
      WriteAuthMethods();
      ghost var input := sock.input;
      MethodRuns(config, false, input);
      res := ReadAuthMethod();
      if res < 0 {
        return -1;
      }
      if res == METHOD_USER as int {
        WriteAuthCreds();
        CredsRuns(config, false, sock.input);
        res := ReadAuthCreds();
        if res < 0 {
          return -1;
        }
      } else if res != METHOD_NONE as int {
        return -1;
      }
      WriteRequest();
      res := ReadResponse();
    }

    method HandshakePipeline() returns (res: int)
      requires Sane(config.dest)
      modifies sock, this`bound
      ensures var (out, end) := Run(config, true, AwaitMethod, old(sock.input));
        sock.sent == old(sock.sent) + Start(config, true) + out && end == if res == 0 then Over(true, bound) else FAILED
    {
      WriteAuthMethods();
      WriteAuthCreds();
      WriteRequest();
      ghost var input := sock.input;
      MethodRuns(config, true, input);
      res := ReadAuthMethod();
      if res < 0 {
        return -1;
      }
      if res == METHOD_USER as int {
        CredsRuns(config, true, sock.input);
        res := ReadAuthCreds();
        if res < 0 {
          return -1;
        }
      } else if res != METHOD_NONE as int {
        return -1;
      }
      res := ReadResponse();
    }
  }

  /** The run from the response on. */
  lemma HeadRuns(c: Config, input: Bytes)
    requires Sane(c.dest)
    ensures forall pipe: bool :: Run(c, pipe, AwaitHead, input) == ([], HeadEnd(c, input))
  {
    HeadRun(c, true, input);
    HeadRun(c, false, input);
  }

  lemma HeadRun(c: Config, pipe: bool, input: Bytes)
    requires Sane(c.dest)
    ensures Run(c, pipe, AwaitHead, input) == ([], HeadEnd(c, input))
  {
    if |input| >= 4 {
      RunStep(c, pipe, AwaitHead, input, 4);
      var (s, rest) := (Next(c, pipe, AwaitHead, input[..4]).0, input[4..]);
      var none: Bytes := [];
      assert none + none == none;
      if s.AwaitAddr? && |rest| >= Need(s) {
        RunStep(c, pipe, s, rest, Need(s));
        RunOver(c, pipe, Next(c, pipe, s, rest[..Need(s)]).0, rest[Need(s)..]);
        assert input[4..4 + Need(s)] == rest[..Need(s)];
      } else {
        RunOver(c, pipe, s, rest);
      }
    }
  }

  /** How the response decides. */
  ghost function HeadEnd(c: Config, input: Bytes): State {
    if |input| < 4 || input[0] != 5 || input[1] != 0 || input[3] !in {IPV4, IPV6} then FAILED else
    var n := if input[3] == IPV4 then 6 else 18;
    if |input| < 4 + n || !c.accepts then FAILED else Over(true, [input[3]] + input[4..4 + n])
  }

  lemma MethodRuns(c: Config, pipe: bool, input: Bytes)
    requires Sane(c.dest)
    ensures |input| < 2 || input[0] != 5 || input[1] !in {METHOD_USER, METHOD_NONE} ==> Run(c, pipe, AwaitMethod, input) == ([], FAILED)
    ensures |input| >= 2 && input[0] == 5 && input[1] in {METHOD_USER, METHOD_NONE} ==>
      var s := if input[1] == METHOD_USER then AwaitCreds else AwaitHead;
      var out := if pipe then [] else if input[1] == METHOD_USER then Creds(c) else Request(c);
      Run(c, pipe, AwaitMethod, input) == (out + Run(c, pipe, s, input[2..]).0, Run(c, pipe, s, input[2..]).1)
  {
    if |input| >= 2 {
      RunStep(c, pipe, AwaitMethod, input, 2);
      if input[0] != 5 || input[1] !in {METHOD_USER, METHOD_NONE} {
        RunFails(c, pipe, AwaitMethod, input, 2);
      }
    }
  }

  lemma CredsRuns(c: Config, pipe: bool, input: Bytes)
    requires Sane(c.dest)
    ensures |input| < 2 || input[0] != 1 || input[1] != 0 ==> Run(c, pipe, AwaitCreds, input) == ([], FAILED)
    ensures |input| >= 2 && input[0] == 1 && input[1] == 0 ==>
      Run(c, pipe, AwaitCreds, input)
      == ((if pipe then [] else Request(c)) + Run(c, pipe, AwaitHead, input[2..]).0, Run(c, pipe, AwaitHead, input[2..]).1)
  {
    if |input| >= 2 {
      RunStep(c, pipe, AwaitCreds, input, 2);
      if input[0] != 1 || input[1] != 0 {
        RunFails(c, pipe, AwaitCreds, input, 2);
      }
    }
  }
}
