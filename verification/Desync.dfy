/** Sending a buffer in parts, out of order on purpose, so that it can be resumed. */
module Desync {
  import opened ByteOrder
  import opened Sequences
  import opened TlsRecords

  /** What a send call answers: how many bytes it took, that it would block, or an error, which may come after some bytes went. */
  datatype Answer = Took(count: nat) | Again | Failed(count: nat)

  /** What parsing found: a TLS hello with its server name, an HTTP request with its host, or neither. */
  datatype Type = Https | Http | Other

  /** A send: in which way, and how many bytes were offered. */
  datatype Call = Call(m: Mode, size: nat)

  /** The in-band side of a connection, and the answers it is going to give. */
  class Socket {
    var answers: seq<Answer>
    var sent: Bytes
    var calls: seq<Call>
    var short: nat
    var failed: bool

    constructor (answers: seq<Answer>)
      ensures this.answers == answers && sent == [] && calls == [] && short == 0 && !failed
    {
      this.answers, sent, calls, short, failed := answers, [], [], 0, false;
    }

    /** One call of `send`; a `whole` send takes everything or nothing. */
    method Send(m: Mode, data: Bytes, whole: bool) returns (a: Answer)
      modifies this
      ensures calls == old(calls) + [Call(m, |data|)]
      ensures short == old(short) + (if a == Took(|data|) then 0 else 1) && failed == (old(failed) || a.Failed?)
      ensures a.Took? ==> a.count <= |data| && (whole ==> a.count == |data|) && sent == old(sent) + data[..a.count]
      ensures a.Again? ==> sent == old(sent)
    {
      calls := calls + [Call(m, |data|)];
      a := Failed(0);
      if answers != [] {
        a, answers := answers[0], answers[1..];
      }
      if !a.Again? {
        var count := if whole || a.count > |data| then |data| else a.count;
        a := if a.Took? then Took(count) else Failed(count);
        sent := sent + data[..count];
      }
      short := short + (if a == Took(|data|) then 0 else 1);
      failed := failed || a.Failed?;
    }
  }

  /** The position a part stands for in the transformed buffer of `n` bytes, and whether the part applies at all. */
  function Position(part: Part, type_: Type, n: int, host: int): (bool, int) {
    if part.flag == Sni then (type_ == Https, part.pos + host)
    else if part.flag == Host then (type_ == Http, part.pos + host)
    else if part.pos < 0 || part.flag == End then (true, part.pos + n)
    else (true, part.pos)
  }

  /** The sends that the parts ask for from `lp` on: parts that do not apply or are behind `offset` are passed over, a part out of range ends it. */
  ghost function Plan(parts: seq<Part>, type_: Type, host: int, offset: nat, lp: nat, n: nat): seq<Call>
    requires lp <= n
  {
    if parts == [] then Rest(lp, n) else
    var (applies, pos) := Position(parts[0], type_, n, host);
    if !applies || (offset != 0 && pos <= offset) then Plan(parts[1..], type_, host, offset, lp, n)
    else if pos < lp || pos > n then Rest(lp, n)
    else (if parts[0].m == Fake && pos == lp then [] else [Call(parts[0].m, pos - lp)]) + Plan(parts[1..], type_, host, offset, pos, n)
  }

  /** What is sent once no part is left to act on. */
  ghost function Rest(lp: nat, n: nat): seq<Call>
    requires lp <= n
  {
    if lp < n then [Call(None, n - lp)] else []
  }

  ghost function Offered(calls: seq<Call>): nat {
    if calls == [] then 0 else calls[0].size + Offered(calls[1..])
  }

  /** Whatever the parts, the planned sends divide up what is left: no byte is planned twice or left out. */
  lemma {:induction false} PlanOffersAll(parts: seq<Part>, type_: Type, host: int, offset: nat, lp: nat, n: nat)
    requires lp <= n
    ensures Offered(Plan(parts, type_, host, offset, lp, n)) == n - lp
  {
    if parts != [] {
      hide Position;
      var (applies, pos) := Position(parts[0], type_, n, host);
      if !applies || (offset != 0 && pos <= offset) {
        PlanOffersAll(parts[1..], type_, host, offset, lp, n);
      } else if lp <= pos <= n {
        PlanOffersAll(parts[1..], type_, host, offset, pos, n);
        var plan := Plan(parts[1..], type_, host, offset, pos, n);
        assert ([Call(parts[0].m, pos - lp)] + plan)[1..] == plan && [] + plan == plan;
      }
    }
  }

  // ---------------------------------------------------------------- where the sends end

  /**
   The place in the buffer that a part asks to be cut at: behind the host for its two flags, which mean
   the name in a TLS hello and the host of an HTTP request, and before the end for a negative place and
   for the end flag.  There is none for a part that does not apply to the traffic.
   */
  ghost predicate Wants(part: Part, type_: Type, n: int, host: int, at: int) {
    match part.flag
    case Sni => type_ == Https && at == host + part.pos
    case Host => type_ == Http && at == host + part.pos
    case End => at == n + part.pos
    case Plain => at == if part.pos < 0 then n + part.pos else part.pos
  }

  /** It asks for a place that was not sent before. */
  ghost predicate Asks(part: Part, type_: Type, n: int, host: int, offset: nat, at: int) {
    Wants(part, type_, n, host, at) && (offset != 0 ==> at > offset)
  }

  /** A part acted on: one send in its own mode up to the place it asks for, but none for a fake of nothing; or a part passed over. */
  ghost predicate Goes(part: Part, type_: Type, n: int, host: int, offset: nat, from: int, to: int, sends: seq<Call>) {
    if exists at :: Asks(part, type_, n, host, offset, at) then
      Asks(part, type_, n, host, offset, to) && 0 <= from <= to <= n
      && sends == if part.m == Fake && from == to then [] else [Call(part.m, to - from)]
    else
      to == from && sends == []
  }

  ghost function All(sends: seq<seq<Call>>): seq<Call> {
    if sends == [] then [] else sends[0] + All(sends[1..])
  }

  /**
   The parts are taken in order, part `i` from place `ps[i]` to place `ps[i + 1]`, until one is out of
   range or none is left; the rest goes out plainly.
   */
  ghost predicate Cuts(calls: seq<Call>, parts: seq<Part>, type_: Type, host: int, offset: nat, lp: nat, n: nat,
                       ps: seq<int>, sends: seq<seq<Call>>) {
    var stop := |sends|;
    && |ps| == stop + 1 && stop <= |parts| && ps[0] == lp
    && (forall i :: 0 <= i < stop ==> Goes(parts[i], type_, n, host, offset, ps[i], ps[i + 1], sends[i]))
    && (stop < |parts| ==> exists at :: Asks(parts[stop], type_, n, host, offset, at) && (at < ps[stop] || at > n))
    && calls == All(sends) + if 0 <= ps[stop] < n then [Call(None, n - ps[stop])] else []
  }

  lemma PositionIs(part: Part, type_: Type, n: int, host: int)
    ensures var (applies, pos) := Position(part, type_, n, host);
      forall at :: Wants(part, type_, n, host, at) <==> applies && at == pos
  {
  }

  /** What the first part comes to. */
  lemma PartGoes(part: Part, type_: Type, n: nat, host: int, offset: nat, lp: nat)
    requires lp <= n
    ensures var (applies, pos) := Position(part, type_, n, host);
      if !applies || (offset != 0 && pos <= offset) then Goes(part, type_, n, host, offset, lp, lp, []) == true
      else if pos < lp || pos > n then exists at :: Asks(part, type_, n, host, offset, at) && (at < lp || at > n)
      else Goes(part, type_, n, host, offset, lp, pos, if part.m == Fake && pos == lp then [] else [Call(part.m, pos - lp)]) == true
  {
    PositionIs(part, type_, n, host);
    var (applies, pos) := Position(part, type_, n, host);
    if applies && !(offset != 0 && pos <= offset) {
      assert Asks(part, type_, n, host, offset, pos);
    }
    hide Position, Wants;
  }

  /** The plan, by what each part wants. */
  lemma {:induction false} PlanCuts(parts: seq<Part>, type_: Type, host: int, offset: nat, lp: nat, n: nat)
    returns (ps: seq<int>, sends: seq<seq<Call>>)
    requires lp <= n
    ensures Cuts(Plan(parts, type_, host, offset, lp, n), parts, type_, host, offset, lp, n, ps, sends) == true
    decreases |parts|
  {
    ps, sends := [lp], [];
    if parts == [] {
      CutsNone(parts, type_, host, offset, lp, n);
    } else {
      var part := parts[0];
      PartGoes(part, type_, n, host, offset, lp);
      PlanNext(parts, 0, type_, host, offset, lp, n);
      assert parts[0..] == parts;
      hide *;
      var (applies, pos) := Position(part, type_, n, host);
      if !applies || (offset != 0 && pos <= offset) {
        var plan := Plan(parts[1..], type_, host, offset, lp, n);
        ps, sends := PlanCuts(parts[1..], type_, host, offset, lp, n);
        CutsMore(plan, parts, type_, host, offset, lp, lp, n, ps, sends, []);
        assert [] + plan == plan;
        ps, sends := [lp as int] + ps, [[]] + sends;
      } else if pos < lp || pos > n {
        CutsNone(parts, type_, host, offset, lp, n);
      } else {
        var s := if part.m == Fake && pos == lp then [] else [Call(part.m, pos - lp)];
        ps, sends := PlanCuts(parts[1..], type_, host, offset, pos, n);
        CutsMore(Plan(parts[1..], type_, host, offset, pos, n), parts, type_, host, offset, lp, pos, n, ps, sends, s);
        ps, sends := [lp as int] + ps, [s] + sends;
      }
    }
  }

  lemma CutsNone(parts: seq<Part>, type_: Type, host: int, offset: nat, lp: nat, n: nat)
    requires lp <= n && (parts != [] ==> exists at :: Asks(parts[0], type_, n, host, offset, at) && (at < lp || at > n))
    ensures Cuts(Rest(lp, n), parts, type_, host, offset, lp, n, [lp], []) == true
    ensures parts == [] ==> Plan(parts, type_, host, offset, lp, n) == Rest(lp, n)
  {
    assert [] + Rest(lp, n) == Rest(lp, n);
  }

  lemma CutsMore(calls: seq<Call>, parts: seq<Part>, type_: Type, host: int, offset: nat, from: nat, to: nat, n: nat, ps: seq<int>,
                 sends: seq<seq<Call>>, s: seq<Call>)
    requires parts != [] && Cuts(calls, parts[1..], type_, host, offset, to, n, ps, sends) == true
    requires Goes(parts[0], type_, n, host, offset, from, to, s) == true
    ensures Cuts(s + calls, parts, type_, host, offset, from, n, [from as int] + ps, [s] + sends) == true
  {
    var (qs, ss, stop) := ([from as int] + ps, [s] + sends, |sends|);
    hide Goes, Asks, Wants;
    forall i | 0 <= i < |ss|
      ensures Goes(parts[i], type_, n, host, offset, qs[i], qs[i + 1], ss[i])
    {
      if i > 0 {
        assert parts[i] == parts[1..][i - 1] && qs[i] == ps[i - 1] && qs[i + 1] == ps[i] && ss[i] == sends[i - 1];
      }
    }
    assert ss[1..] == sends && qs[stop + 1] == ps[stop];
    if stop + 1 < |parts| {
      assert parts[stop + 1] == parts[1..][stop];
    }
    var tail := if 0 <= ps[stop] < n then [Call(None, n - ps[stop])] else [];
    Assoc(s, All(sends), tail);
  }

  /**
   The parts loop.  Whatever parts are asked for and however sending goes, the sends are the
   planned ones in order, all of them unless one is not taken in full, and -1 comes of a failed one
   only; and an answer r >= 0 says that exactly the bytes
   from `offset` to r went out in band, in order.
   */
  method Desync(sock: Socket, buffer: Bytes, offset: nat, parts: seq<Part>, type_: Type, host: int) returns (r: int)
    requires offset <= |buffer|
    modifies sock
    ensures r == -1 || offset <= r <= |buffer|
    ensures r >= 0 ==> sock.sent == old(sock.sent) + buffer[offset..r]
    ensures sock.calls <= old(sock.calls) + Plan(parts, type_, host, offset, offset, |buffer|)
    ensures sock.short == old(sock.short) ==> r == |buffer| && sock.calls == old(sock.calls) + Plan(parts, type_, host, offset, offset, |buffer|)
    ensures sock.failed == (old(sock.failed) || r == -1)
  {
    var n := |buffer|;
    var lp := offset;
    var i := 0;
    ghost var (short, failed) := (sock.short, sock.failed);
    ghost var (sent, calls, plan) := (sock.sent, sock.calls, Plan(parts, type_, host, offset, offset, n));
    hide *;
    while i < |parts|
      invariant 0 <= i <= |parts| && offset <= lp <= n
      invariant sock.sent == sent + buffer[offset..lp]
      invariant sock.calls + Plan(parts[i..], type_, host, offset, lp, n) == calls + plan
      invariant sock.short == short && sock.failed == failed
    {
      var part := parts[i];
      var (applies, pos) := Position(part, type_, n, host);
      PlanNext(parts, i, type_, host, offset, lp, n);
      i := i + 1;
      if !applies || (offset != 0 && pos <= offset) {
        continue;
      } else if pos < 0 || pos > n || pos < lp {
        break;
      }
      if part.m != Fake || pos != lp {
        var stop;
        stop, r := SendPart(sock, part.m, buffer, offset, lp, pos, sent, Plan(parts[i..], type_, host, offset, pos, n), calls + plan);
        if stop {
          return;
        }
      }
      lp := pos;
    }
    if i == |parts| {
      PlanNone(parts, type_, host, offset, lp, n);
    }
    assert sock.calls + Rest(lp, n) == calls + plan;
    r := SendRest(sock, buffer, offset, lp, sent, calls + plan);
  }

  /** The last send, of all that is left. */
  method SendRest(sock: Socket, buffer: Bytes, offset: nat, lp: nat, ghost sent: Bytes, ghost all: seq<Call>) returns (r: int)
    requires offset <= lp <= |buffer|
    requires sock.sent == sent + buffer[offset..lp]
    requires sock.calls + Rest(lp, |buffer|) == all
    modifies sock
    ensures r == -1 || offset <= r <= |buffer|
    ensures sock.short == old(sock.short) ==> r == |buffer| && sock.calls == all
    ensures sock.failed == (old(sock.failed) || r == -1)
    ensures r >= 0 ==> sock.sent == sent + buffer[offset..r]
    ensures sock.calls <= all
  {
    var n := |buffer|;
    if lp < n {
      var a := sock.Send(None, buffer[lp..n], true);
      Extend(buffer, offset, lp, n, sent, if a.Took? then a.count else 0);
      if a == Again {
        return lp;
      } else if a.Failed? {
        return -1;
      }
    }
    return n;
  }

  lemma PlanNone(parts: seq<Part>, type_: Type, host: int, offset: nat, lp: nat, n: nat)
    requires lp <= n
    ensures Plan(parts[|parts|..], type_, host, offset, lp, n) == Rest(lp, n)
  {
    hide Position, Rest;
  }

  lemma Prefix(calls: seq<Call>, todo: seq<Call>, all: seq<Call>)
    requires calls + todo == all
    ensures calls <= all
  {
  }

  /** What the parts from `i` on ask for first. */
  lemma PlanNext(parts: seq<Part>, i: nat, type_: Type, host: int, offset: nat, lp: nat, n: nat)
    requires i < |parts| && lp <= n
    ensures var (applies, pos) := Position(parts[i], type_, n, host);
      var plan := Plan(parts[i..], type_, host, offset, lp, n);
      if !applies || (offset != 0 && pos <= offset) then plan == Plan(parts[i + 1..], type_, host, offset, lp, n)
      else if pos < lp || pos > n then plan == Rest(lp, n)
      else plan == (if parts[i].m == Fake && pos == lp then [] else [Call(parts[i].m, pos - lp)]) + Plan(parts[i + 1..], type_, host, offset, pos, n)
  {
    hide Position;
    assert parts[i..][0] == parts[i] && parts[i..][1..] == parts[i + 1..];
  }

  /**
   `send_fake`, `send_disorder`, `send_oob`, `send_late_oob` or `send`, and whether to stop there with r:
   the sends with an urgent byte take everything or nothing.
   */
  method SendPart(sock: Socket, m: Mode, buffer: Bytes, offset: nat, lp: nat, pos: nat, ghost sent: Bytes,
                  ghost todo: seq<Call>, ghost all: seq<Call>)
      returns (stop: bool, r: int)
    requires offset <= lp <= pos <= |buffer|
    requires sock.sent == sent + buffer[offset..lp]
    requires sock.calls + ([Call(m, pos - lp)] + todo) == all
    modifies sock
    ensures !stop ==> sock.sent == sent + buffer[offset..pos] && sock.calls + todo == all
    ensures !stop ==> sock.short == old(sock.short) && sock.failed == old(sock.failed)
    ensures stop ==> sock.short == old(sock.short) + 1 && sock.failed == (old(sock.failed) || r == -1)
    ensures stop ==> (r == -1 || offset <= r <= pos) && (r >= 0 ==> sock.sent == sent + buffer[offset..r]) && sock.calls <= all
  {
    Assoc(sock.calls, [Call(m, pos - lp)], todo);
    var a := sock.Send(m, buffer[lp..pos], m == Oob || m == Disoob);
    Extend(buffer, offset, lp, pos, sent, if a.Took? then a.count else 0);
    Prefix(sock.calls, todo, all);
    stop := a != Took(pos - lp);
    r := if a == Again then lp else if a.Failed? then -1 else lp + a.count;
  }

  lemma Extend(b: Bytes, offset: nat, lp: nat, pos: nat, sent: Bytes, count: nat)
    requires offset <= lp <= pos <= |b| && count <= pos - lp
    ensures sent + b[offset..lp] + b[lp..pos][..count] == sent + b[offset..lp + count]
  {
    assert b[offset..lp] + b[lp..pos][..count] == b[offset..lp + count];
  }

  /** Starting again from every answer, until all is sent or sending fails, repeats and loses nothing. */
  method Resume(sock: Socket, buffer: Bytes, parts: seq<Part>, type_: Type, host: int, tries: nat) returns (r: int)
    modifies sock
    ensures r == -1 || 0 <= r <= |buffer|
    ensures r >= 0 ==> sock.sent == old(sock.sent) + buffer[..r]
  {
    r := 0;
    var k := 0;
    while k < tries && 0 <= r < |buffer|
      invariant r == -1 || 0 <= r <= |buffer|
      invariant r >= 0 ==> sock.sent == old(sock.sent) + buffer[..r]
    {
      var next := Desync(sock, buffer, r, parts, type_, host);
      if next >= 0 {
        assert buffer[..r] + buffer[r..next] == buffer[..next];
      }
      r := next;
      k := k + 1;
    }
  }
}
