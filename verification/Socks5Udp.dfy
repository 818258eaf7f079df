/** Datagrams in a TCP stream: each one behind its lengths and its address. */
module Socks5Udp {
  import opened ByteOrder
  import opened Options
  import opened Wire
  import opened Socks5Addr

  /** A datagram with the address it goes to or comes from. */
  datatype Datagram = Datagram(addr: Addr, data: Bytes)

  /** The lengths fit their fields: two bytes for the data, one byte for the header. */
  predicate Fits(d: Datagram) {
    Sane(d.addr) && |d.data| < 65536 && |Encode(d.addr)| <= 252
  }

  function Head(datlen: nat, hdrlen: nat): Bytes {
    BE16(datlen % 65536) + [hdrlen % 256]
  }

  function Frame(d: Datagram): Bytes
    requires Sane(d.addr)
  {
    Head(|d.data|, 3 + |Encode(d.addr)|) + Encode(d.addr) + d.data
  }

  ghost function Frames(ds: seq<Datagram>): Bytes
    requires forall d <- ds :: Sane(d.addr)
  {
    if ds == [] then [] else Frame(ds[0]) + Frames(ds[1..])
  }

  // ---------------------------------------------------------------- sending

  /** The address of a message as it is in memory, which may be of an unknown type. */
  datatype Outgoing = Outgoing(addr: Bytes, data: Bytes)

  /** hev_socks5_udp_sendmmsg_tcp: what is gathered for the stream, or -1 if some address has no known type. */
  method SendMmsgTcp(msgs: seq<Outgoing>) returns (res: int, sent: Bytes)
    requires forall m <- msgs :: |m.addr| >= 2 && AddrLen(m.addr[0], m.addr[1]) <= |m.addr|
    ensures res == |msgs| || res == -1
    ensures res == -1 <==> exists m <- msgs :: Decode(m.addr) == None
    ensures res == |msgs| ==> (forall m <- msgs :: Decode(m.addr).Some?) && sent == Frames(Meant(msgs))
  {
    hide Decode, Frames, Meant, Head, Sane;
    sent := [];
    MeantNone(msgs);
    for i := 0 to |msgs|
      invariant forall j :: 0 <= j < i ==> Decode(msgs[j].addr).Some?
      invariant sent == Frames(Meant(msgs[..i]))
    {
      var m := msgs[i];
      var addrlen := AddrLen(m.addr[0], m.addr[1]);
      KnownType(m.addr);
      if addrlen <= 0 {
        return -1, [];
      }
      MeantFrame(msgs, i);
      sent := sent + (Head(|m.data|, 3 + addrlen) + m.addr[..addrlen] + m.data);
    }
    assert msgs[..|msgs|] == msgs;
    res := |msgs|;
  }

  lemma KnownType(a: Bytes)
    requires |a| >= 2 && AddrLen(a[0], a[1]) <= |a|
    ensures Decode(a) == None <==> AddrLen(a[0], a[1]) <= 0
  {
  }

  lemma MeantNone(msgs: seq<Outgoing>)
    ensures Frames(Meant(msgs[..0])) == []
  {
  }

  lemma MeantFrame(msgs: seq<Outgoing>, i: nat)
    requires i < |msgs| && |msgs[i].addr| >= 2 && 0 < AddrLen(msgs[i].addr[0], msgs[i].addr[1]) <= |msgs[i].addr|
    requires forall j :: 0 <= j < i ==> Decode(msgs[j].addr).Some?
    ensures Decode(msgs[i].addr).Some?
    ensures var n := AddrLen(msgs[i].addr[0], msgs[i].addr[1]);
      Frames(Meant(msgs[..i + 1])) == Frames(Meant(msgs[..i])) + (Head(|msgs[i].data|, 3 + n) + msgs[i].addr[..n] + msgs[i].data)
  {
    OutgoingFrame(msgs[i]);
    hide *;
    MeantMore(msgs, i);
    FramesMore(Meant(msgs[..i]), Datagram(Decode(msgs[i].addr).value, msgs[i].data));
  }

  lemma OutgoingFrame(m: Outgoing)
    requires |m.addr| >= 2 && 0 < AddrLen(m.addr[0], m.addr[1]) <= |m.addr|
    ensures Decode(m.addr).Some? && Sane(Decode(m.addr).value)
    ensures var n := AddrLen(m.addr[0], m.addr[1]);
      Frame(Datagram(Decode(m.addr).value, m.data)) == Head(|m.data|, 3 + n) + m.addr[..n] + m.data
  {
    DecodeEncodes(m.addr);
    hide Decode, Encode, AddrLen, Head, Sane;
  }

  /** The datagrams that messages in memory stand for. */
  ghost function Meant(msgs: seq<Outgoing>): (ds: seq<Datagram>)
    requires forall m <- msgs :: Decode(m.addr).Some?
    ensures |ds| == |msgs| && forall d <- ds :: Sane(d.addr)
  {
    seq(|msgs|, i requires 0 <= i < |msgs| => Datagram(Decode(msgs[i].addr).value, msgs[i].data))
  }

  lemma MeantMore(msgs: seq<Outgoing>, i: nat)
    requires i < |msgs| && forall j :: 0 <= j <= i ==> Decode(msgs[j].addr).Some?
    ensures Meant(msgs[..i + 1]) == Meant(msgs[..i]) + [Datagram(Decode(msgs[i].addr).value, msgs[i].data)]
  {
  }

  lemma {:induction false} FramesMore(ds: seq<Datagram>, d: Datagram)
    requires Sane(d.addr) && forall x <- ds :: Sane(x.addr)
    ensures Frames(ds + [d]) == Frames(ds) + Frame(d)
  {
    hide Frame, Sane;
    if ds == [] {
      assert ds + [d] == [d] && [d][1..] == [];
      assert Frame(d) + [] == Frame(d) && [] + Frame(d) == Frame(d);
    } else {
      assert (ds + [d])[1..] == ds[1..] + [d] && (ds + [d])[0] == ds[0];
      FramesMore(ds[1..], d);
      assert Frame(ds[0]) + (Frames(ds[1..]) + Frame(d)) == Frame(ds[0]) + Frames(ds[1..]) + Frame(d);
    }
  }

  // ---------------------------------------------------------------- the stream as it arrives

  ghost function Flat(chunks: seq<Bytes>): Bytes {
    if chunks == [] then [] else chunks[0] + Flat(chunks[1..])
  }

  /** The chunks that are left when `n` bytes have been read. */
  ghost function After(chunks: seq<Bytes>, n: nat): seq<Bytes>
    decreases |chunks|
  {
    if n == 0 || chunks == [] then chunks
    else if |chunks[0]| <= n then After(chunks[1..], n - |chunks[0]|)
    else [chunks[0][n..]] + chunks[1..]
  }

  /** There is nothing now. */
  ghost predicate Waits(chunks: seq<Bytes>) {
    chunks != [] && chunks[0] == []
  }

  lemma {:induction false} AfterAfter(chunks: seq<Bytes>, n: nat, k: nat)
    ensures After(After(chunks, n), k) == After(chunks, n + k)
    decreases |chunks|
  {
    if n > 0 && chunks != [] {
      if |chunks[0]| <= n {
        AfterAfter(chunks[1..], n - |chunks[0]|, k);
      } else {
        var c := [chunks[0][n..]] + chunks[1..];
        assert c[1..] == chunks[1..] && k <= |c[0]| ==> c[0][k..] == chunks[0][n + k..];
      }
    }
  }

  lemma AfterNone(chunks: seq<Bytes>)
    ensures After(chunks, 0) == chunks && [] + Flat(chunks) == Flat(chunks)
  {
  }

  /** The bytes come in chunks; an empty chunk is a moment when there is nothing yet. */
  class Source {
    var chunks: seq<Bytes>

    constructor (chunks: seq<Bytes>)
      ensures this.chunks == chunks
    {
      this.chunks := chunks;
    }

    ghost function Left(): Bytes
      reads this
    {
      Flat(chunks)
    }

    /** A receive of up to `n` bytes: at least one, unless the stream is over (0) or there is nothing now (-1). */
    method Recv(n: nat, nonblock: bool) returns (res: int, b: Bytes)
      requires n > 0
      modifies this
      ensures old(Left()) == b + Left() && |b| <= n && (res == |b| || (res == -1 && b == []))
      ensures (res == 0 <==> b == [] && res != -1) && (res == 0 ==> Left() == [])
      ensures res == -1 <==> nonblock && Waits(old(chunks))
      ensures res == -1 ==> |chunks| < |old(chunks)|
      ensures res >= 0 ==> chunks == After(old(chunks), if res == 0 then n else |b|)
    {
      if nonblock && chunks != [] && chunks[0] == [] {
        chunks := chunks[1..];
        return -1, [];
      }
      while chunks != [] && chunks[0] == []
        invariant old(Left()) == Left() && forall k: nat :: k > 0 ==> After(chunks, k) == After(old(chunks), k)
        decreases |chunks|
      {
        assert [] + Flat(chunks[1..]) == Flat(chunks[1..]);
        chunks := chunks[1..];
      }
      if chunks == [] {
        return 0, [];
      }
      b := Take(n);
      res := |b|;
    }

    /** Up to `n` bytes of the first chunk, which is not empty. */
    method Take(n: nat) returns (b: Bytes)
      requires n > 0 && chunks != [] && chunks[0] != []
      modifies this
      ensures old(Left()) == b + Left() && 0 < |b| <= n && chunks == After(old(chunks), |b|)
    {
      var c := chunks[0];
      if |c| <= n {
        b, chunks := c, chunks[1..];
      } else {
        b := c[..n];
        assert c == c[..n] + c[n..];
        assert c[..n] + c[n..] + Flat(chunks[1..]) == c[..n] + (c[n..] + Flat(chunks[1..]));
        assert ([c[n..]] + chunks[1..])[1..] == chunks[1..];
        chunks := [c[n..]] + chunks[1..];
      }
    }

    /** A receive that waits for all `n` bytes; fewer are all there are. */
    method RecvAll(n: nat) returns (b: Bytes)
      modifies this
      ensures old(Left()) == b + Left() && |b| == if |old(Left())| < n then |old(Left())| else n
      ensures chunks == After(old(chunks), n)
    {
      AfterNone(chunks);
      hide After, Flat;
      b := [];
      while |b| < n
        invariant old(Left()) == b + Left() && |b| <= n && chunks == After(old(chunks), |b|)
        decreases n - |b|
      {
        var res, more := Recv(n - |b|, false);
        AfterAfter(old(chunks), |b|, if res == 0 then n - |b| else |more|);
        if res == 0 {
          break;
        }
        assert b + (more + Left()) == b + more + Left();
        b := b + more;
      }
    }
  }

  // ---------------------------------------------------------------- receiving

  /** `HevSocks5UDPMsg`: a slot, and where in it the address and the data are; before receiving, `buf` is the whole slot. */
  class Msg {
    const slot: array<byte>
    var addr: Option<nat>
    var buf: nat
    var len: nat

    constructor (size: nat)
      ensures slot.Length == size && addr == None && buf == 0 && len == size && fresh(slot)
    {
      slot := new byte[size];
      addr, buf, len := None, 0, size;
    }

    /** The slot is empty and large enough for any address, as the buffers of 1500 bytes are. */
    ghost predicate Ready()
      reads this
    {
      buf == 0 && len == slot.Length >= 252
    }

    /** The address starts the slot, the data follows it, and together they are the datagram `d`. */
    ghost predicate Holds(d: Datagram)
      reads this, slot
    {
      && addr == Some(0) && buf + len <= slot.Length && Decode(slot[..]) == Some(d.addr) && slot[buf..][..len] == d.data
      && slot.Length >= 2 && buf == AddrLen(slot[0], slot[1])
    }

    /** `b` goes to the slot at `off`. */
    method Put(off: nat, b: Bytes)
      requires off + |b| <= slot.Length
      modifies slot
      ensures slot[..] == old(slot[..])[..off] + b + old(slot[..])[off + |b|..]
    {
      ghost var s := slot[..];
      for i := 0 to |b|
        invariant slot[..] == s[..off] + b[..i] + s[off + i..]
      {
        slot[off + i] := b[i];
        assert b[..i + 1] == b[..i] + [b[i]];
      }
      assert b[..|b|] == b;
    }
  }

  /** Where the parts of a frame are. */
  lemma FrameParts(d: Datagram, rest: Bytes)
    requires Fits(d)
    ensures var (b, a) := (Frame(d) + rest, Encode(d.addr));
      && |a| >= 4 && |b| >= 5 && U16(b, 0) == |d.data| && b[2] == 3 + |a| && b[3..5] == a[..2] && b[3] == a[0] && b[4] == a[1]
      && b[5..] == a[2..] + d.data + rest
  {
    EncodeDecodes(d.addr, []);
    var (h, a, x) := (Head(|d.data|, 3 + |Encode(d.addr)|), Encode(d.addr), d.data);
    hide Encode, Decode;
    assert Frame(d) == h + a + x;
    hide Frame;
    Cut(h, a, x, rest);
    assert U16(h + a + x + rest, 0) == U16(h, 0) && (h + a + x + rest)[2] == h[2];
  }

  lemma Cut(h: Bytes, a: Bytes, x: Bytes, rest: Bytes)
    requires |h| == 3 && |a| >= 2
    ensures var b := h + a + x + rest;
      b[3..5] == a[..2] && b[5..] == a[2..] + x + rest && b[3] == a[0] && b[4] == a[1]
  {
    assert h + a + x + rest == h + (a + (x + rest));
    assert a == a[..2] + a[2..];
    assert (h + a + x + rest)[3..] == a[..2] + (a[2..] + x + rest);
  }

  /** The five bytes that start a datagram: 5, or how many there are, or -1 if there is nothing now. */
  method ReadHead(src: Source, nonblock: bool) returns (res: int, head: Bytes)
    modifies src
    ensures old(src.Left()) == head + src.Left() && |head| <= 5 && (res == |head| || (res == -1 && head == []))
    ensures 0 <= res < 5 ==> src.Left() == []
    ensures res == -1 <==> nonblock && Waits(old(src.chunks))
    ensures res == -1 ==> |src.chunks| < |old(src.chunks)|
    ensures res == 5 ==> src.chunks == After(old(src.chunks), 5)
  {
    res, head := src.Recv(5, nonblock);
    if 0 < res < 5 {
      ghost var before := head;
      AfterAfter(old(src.chunks), res, 5 - res);
      var more := src.RecvAll(5 - res);
      assert before + (more + src.Left()) == before + more + src.Left();
      head := head + more;
      res := |head|;
    }
  }

  /** The head and what follows it are the datagram `d`, which fits a slot of `size` bytes, and then `rest`. */
  ghost predicate Starts(head: Bytes, left: Bytes, d: Datagram, rest: Bytes, size: nat) {
    Fits(d) && |Encode(d.addr)| + |d.data| <= size && head + left == Frame(d) + rest
  }

  /** The head and what follows it carry `d`, whose address may be too long for the length field of the header. */
  ghost predicate Carries(head: Bytes, left: Bytes, d: Datagram, rest: Bytes, size: nat) {
    Sane(d.addr) && |d.data| < 65536 && |Encode(d.addr)| + |d.data| <= size && head + left == Frame(d) + rest
  }

  /**
   The one byte for the length of the header holds it exactly when the address has at most 252
   bytes.  It is too small to be taken for the length of any address up to 257 bytes, and for the
   longest two it is taken for an address of 2 or 3 bytes.
   */
  lemma HeaderWraps(head: Bytes, left: Bytes, d: Datagram, rest: Bytes, size: nat)
    requires |head| == 5 && Carries(head, left, d, rest, size)
    ensures var n := |Encode(d.addr)|;
      && 4 <= n <= 259 && AddrLen(head[3], head[4]) == n
      && (head[2] as int - 3 == n <==> n <= 252)
      && (head[2] < 5 <==> 253 <= n <= 257) && (n > 257 ==> head[2] as int - 3 == n - 256)
  {
    var (b, a) := (Frame(d) + rest, Encode(d.addr));
    EncodeDecodes(d.addr, []);
    assert a + [] == a;
    HeadOf(d, rest);
    assert b[..5] == head;
    assert b[2] == head[2] && b[3] == head[3] && b[4] == head[4];
  }

  lemma HeadOf(d: Datagram, rest: Bytes)
    requires Sane(d.addr) && |Encode(d.addr)| >= 2
    ensures var (b, a) := (Frame(d) + rest, Encode(d.addr));
      |b| >= 5 && b[2] as int == (3 + |a|) % 256 && b[3] == a[0] && b[4] == a[1]
  {
    var (h, a, x) := (Head(|d.data|, 3 + |Encode(d.addr)|), Encode(d.addr), d.data);
    Cut(h, a, x, rest);
    assert (h + a + x + rest)[2] == h[2];
  }

  /** A host name of 249 bytes cannot be received, though it is sent. */
  lemma LongName(host: Bytes, port: Bytes, data: Bytes, size: nat)
    requires |host| == 249 && |port| == 2
    ensures var d := Datagram(Name(host, port), data); Sane(d.addr) && |Frame(d)| >= 5 && Refused(Frame(d)[..5], size)
  {
    var d := Datagram(Name(host, port), data);
    HeadOf(d, []);
    assert Frame(d) + [] == Frame(d);
  }

  /** What the head says is not acceptable: no room for an address, or for the data. */
  predicate Refused(head: Bytes, size: nat)
    requires |head| == 5
  {
    head[2] < 5 || U16(head, 0) > size - (head[2] as int - 3)
  }

  /** The rest of a datagram, into the slot: the address in place, the data behind it. */
  method ReadBody(src: Source, msg: Msg, head: Bytes, ghost d: Datagram, ghost rest: Bytes) returns (res: int)
    requires |head| == 5 && msg.Ready()
    modifies src, msg, msg.slot
    ensures Refused(head, msg.slot.Length) ==> res == -1 && src.Left() == old(src.Left()) && msg.Ready()
    ensures Starts(head, old(src.Left()), d, rest, msg.slot.Length) ==> res == 1 && msg.Holds(d) && src.Left() == rest
    ensures Carries(head, old(src.Left()), d, rest, msg.slot.Length) ==> (res == 1 && msg.Holds(d) <==> |Encode(d.addr)| <= 252)
    ensures res == 1 ==> src.chunks == After(old(src.chunks), head[2] as int - 5 + U16(head, 0))
  {
    ghost var all := src.Left();
    ghost var b;
    res, b := ReadInto(src, msg, head);
    if res == 1 {
      BodyFilled(msg.slot[..], head, b, all, src.Left(), d, rest);
    } else {
      BodyMissing(head, all, d, rest, msg.slot.Length);
    }
    hide *;
  }

  /** The same for any head; `b` is what is read behind it. */
  method ReadInto(src: Source, msg: Msg, head: Bytes) returns (res: int, ghost b: Bytes)
    requires |head| == 5 && msg.Ready()
    modifies src, msg, msg.slot
    ensures res != 1 ==> msg.Ready() && (Refused(head, msg.slot.Length) || |old(src.Left())| < head[2] as int - 5 + U16(head, 0))
    ensures Refused(head, msg.slot.Length) ==> res == -1 && src.Left() == old(src.Left())
    ensures res == 1 ==> Body(msg.slot[..], head, b) == true && old(src.Left()) == b + src.Left()
    ensures res == 1 ==> msg.addr == Some(0) && msg.buf == head[2] as int - 3 && msg.len == U16(head, 0) && msg.buf + msg.len <= msg.slot.Length
    ensures res == 1 ==> src.chunks == After(old(src.chunks), head[2] as int - 5 + U16(head, 0))
  {
    hide After, Flat, Filled, U16;
    if head[2] < 5 {
      return -1, [];
    }
    var addrlen: nat := head[2] - 3;
    var datlen := U16(head, 0);
    // The slots are longer than any address, so the difference does not wrap around.
    if datlen > msg.len - addrlen {
      return -1, [];
    }
    var body := src.RecvAll(addrlen - 2 + datlen);
    b := body;
    if |body| != addrlen - 2 + datlen {
      return 0, b;
    }
    Fill(msg, head, body, addrlen, datlen);
    res := 1;
  }

  ghost predicate Body(s: Bytes, head: Bytes, b: Bytes) {
    |head| == 5 && head[2] >= 5 && Filled(s, head, b, head[2] as int - 3, U16(head, 0))
  }

  /** The slot holds the datagram that the head and the stream carry, if its address is not too long. */
  lemma BodyFilled(s: Bytes, head: Bytes, b: Bytes, all: Bytes, left: Bytes, d: Datagram, rest: Bytes)
    requires Body(s, head, b) && all == b + left
    ensures !Refused(head, |s|) && |s| >= 2
    ensures Starts(head, all, d, rest, |s|) ==>
      Decode(s) == Some(d.addr) && s[head[2] as int - 3..][..U16(head, 0)] == d.data && left == rest && head[2] as int - 3 == AddrLen(s[0], s[1])
    ensures Carries(head, all, d, rest, |s|) ==>
      if |Encode(d.addr)| <= 252 then Starts(head, all, d, rest, |s|) == true else head[2] as int - 3 != AddrLen(s[0], s[1])
  {
    FilledIs(s, head, b, head[2] as int - 3, all, left, d, rest);
    if Carries(head, all, d, rest, |s|) {
      HeaderWraps(head, all, d, rest, |s|);
    }
    hide Encode, Decode, Frame, Sane, AddrLen, U16;
  }

  lemma BodyMissing(head: Bytes, all: Bytes, d: Datagram, rest: Bytes, size: nat)
    requires |head| == 5 && (Refused(head, size) || |all| < head[2] as int - 5 + U16(head, 0))
    ensures !Starts(head, all, d, rest, size) && (Carries(head, all, d, rest, size) ==> |Encode(d.addr)| > 252)
  {
    if Refused(head, size) {
      NoFrame(head, all, d, rest, size);
    } else {
      TooShort(head, all, head[2] as int - 3, U16(head, 0), d, rest, size);
    }
    hide Encode, Frame, Sane, U16;
  }

  /** The rest of the address from the third byte on, the data behind it, and the two bytes that came with the head. */
  method Fill(msg: Msg, head: Bytes, b: Bytes, addrlen: nat, datlen: nat)
    requires |head| == 5 && 2 <= addrlen && |b| == addrlen - 2 + datlen && addrlen + datlen <= msg.slot.Length
    modifies msg, msg.slot
    ensures msg.addr == Some(0) && msg.buf == addrlen && msg.len == datlen && Filled(msg.slot[..], head, b, addrlen, datlen)
  {
    msg.Put(2, b[..addrlen - 2]);
    ghost var s := msg.slot[..];
    msg.Put(addrlen, b[addrlen - 2..]);
    assert msg.slot[..][2..addrlen] == s[2..addrlen];
    ghost var s' := msg.slot[..];
    msg.addr, msg.buf, msg.len := Some(0), addrlen, datlen;
    msg.slot[0] := head[3];
    msg.slot[1] := head[4];
    assert msg.slot[..] == s'[0 := head[3]][1 := head[4]];
    assert msg.slot[..][2..addrlen] == s'[2..addrlen] && msg.slot[..][addrlen..] == s'[addrlen..];
  }

  ghost predicate Filled(s: Bytes, head: Bytes, b: Bytes, addrlen: nat, datlen: nat) {
    && |head| == 5 && 2 <= addrlen && |b| == addrlen - 2 + datlen && addrlen + datlen <= |s|
    && s[0] == head[3] && s[1] == head[4] && s[2..addrlen] == b[..addrlen - 2] && s[addrlen..][..datlen] == b[addrlen - 2..]
  }

  lemma FilledIs(s: Bytes, head: Bytes, b: Bytes, addrlen: nat, all: Bytes, left: Bytes, d: Datagram, rest: Bytes)
    requires |head| == 5 && addrlen == head[2] as int - 3 && Filled(s, head, b, addrlen, U16(head, 0)) && all == b + left
    ensures Starts(head, all, d, rest, |s|) ==>
      Decode(s) == Some(d.addr) && s[addrlen..][..U16(head, 0)] == d.data && left == rest && addrlen == AddrLen(s[0], s[1])
  {
    if Starts(head, all, d, rest, |s|) {
      HeadSays(head, all, d, rest);
      hide Decode, Encode, Frame;
      RebuiltOne(s, b, addrlen, left, d, rest);
    }
  }

  /** A head that is refused does not start a datagram that fits. */
  lemma NoFrame(head: Bytes, left: Bytes, d: Datagram, rest: Bytes, size: nat)
    requires |head| == 5 && Refused(head, size)
    ensures !Starts(head, left, d, rest, size)
  {
    if Starts(head, left, d, rest, size) {
      HeadSays(head, left, d, rest);
    }
  }

  lemma TooShort(head: Bytes, left: Bytes, addrlen: nat, datlen: nat, d: Datagram, rest: Bytes, size: nat)
    requires |head| == 5 && addrlen == head[2] as int - 3 && datlen == U16(head, 0) && |left| < addrlen - 2 + datlen
    ensures !Starts(head, left, d, rest, size)
  {
    if Starts(head, left, d, rest, size) {
      HeadSays(head, left, d, rest);
    }
  }

  /** The lengths in the head, when it starts a datagram. */
  lemma HeadSays(head: Bytes, left: Bytes, d: Datagram, rest: Bytes)
    requires |head| == 5 && Fits(d) && head + left == Frame(d) + rest
    ensures var a := Encode(d.addr);
      && |a| >= 4 && head[2] == 3 + |a| && U16(head, 0) == |d.data| && head[3] == a[0] && head[4] == a[1] && left == a[2..] + d.data + rest
  {
    FrameParts(d, rest);
    var b := Frame(d) + rest;
    assert b[..5] == head && b[5..] == left;
    assert b[0] == head[0] && b[1] == head[1] && b[2] == head[2] && b[3] == head[3] && b[4] == head[4];
  }

  /** The address is whole again, with its two first bytes from the head. */
  lemma RebuiltOne(s: Bytes, b: Bytes, addrlen: nat, left: Bytes, d: Datagram, rest: Bytes)
    requires Fits(d) && |Encode(d.addr)| == addrlen >= 4 && |b| == addrlen - 2 + |d.data| && addrlen + |d.data| <= |s|
    requires s[0] == Encode(d.addr)[0] && s[1] == Encode(d.addr)[1] && s[2..addrlen] == b[..addrlen - 2]
    requires s[addrlen..][..|d.data|] == b[addrlen - 2..] && b + left == Encode(d.addr)[2..] + d.data + rest
    ensures Decode(s) == Some(d.addr) && s[addrlen..][..|d.data|] == d.data && left == rest && addrlen == AddrLen(s[0], s[1])
  {
    var a := Encode(d.addr);
    var whole := a[2..] + d.data + rest;
    assert whole[..|b|] == a[2..] + d.data && whole[|b|..] == rest;
    assert (b + left)[..|b|] == b && (b + left)[|b|..] == left;
    assert b[..addrlen - 2] == a[2..] && b[addrlen - 2..] == d.data;
    assert s == [s[0], s[1]] + s[2..addrlen] + s[addrlen..];
    assert a == [a[0], a[1]] + a[2..];
    EncodeDecodes(d.addr, s[addrlen..]);
  }

  // ---------------------------------------------------------------- a batch

  /** What a batch may hold: datagrams that fit their fields and the slots. */
  predicate AllFit(ds: seq<Datagram>, size: nat) {
    forall d <- ds :: Fits(d) && |Encode(d.addr)| + |d.data| <= size
  }

  lemma FramesNext(ds: seq<Datagram>, size: nat)
    requires AllFit(ds, size) && ds != []
    ensures Frames(ds) == Frame(ds[0]) + Frames(ds[1..]) && AllFit(ds[1..], size) && |Frame(ds[0])| >= 5
    ensures Fits(ds[0]) && |Encode(ds[0].addr)| + |ds[0].data| <= size
  {
    FrameParts(ds[0], []);
    assert Frame(ds[0]) + [] == Frame(ds[0]);
  }

  lemma HeadStarts(ds: seq<Datagram>, size: nat, head: Bytes, left: Bytes)
    requires AllFit(ds, size) && ds != [] && Frames(ds) == head + left
    ensures Starts(head, left, ds[0], Frames(ds[1..]), size) && AllFit(ds[1..], size)
  {
    FramesNext(ds, size);
  }

  ghost predicate Addressed(ds: seq<Datagram>) {
    forall d <- ds :: Sane(d.addr)
  }

  lemma FitAddressed(ds: seq<Datagram>, size: nat)
    requires AllFit(ds, size)
    ensures Addressed(ds) == true
  {
  }

  /** The chunks that are left behind the first `n` datagrams. */
  ghost function Behind(chunks: seq<Bytes>, ds: seq<Datagram>, n: nat): seq<Bytes>
    requires n <= |ds| && Addressed(ds)
  {
    After(chunks, |Frames(ds[..n])|)
  }

  /** Something of each of the first `n` datagrams is there when the ones before it have been read. */
  ghost predicate AllThere(chunks: seq<Bytes>, ds: seq<Datagram>, n: nat)
    requires n <= |ds| && Addressed(ds)
  {
    forall j :: 0 <= j < n ==> !Waits(Behind(chunks, ds, j))
  }

  lemma BehindNone(chunks: seq<Bytes>, ds: seq<Datagram>)
    requires Addressed(ds)
    ensures Behind(chunks, ds, 0) == chunks && AllThere(chunks, ds, 0) == true
  {
  }

  lemma BehindNext(chunks: seq<Bytes>, ds: seq<Datagram>, n: nat)
    requires n < |ds| && Addressed(ds)
    ensures Sane(ds[n].addr) && Behind(chunks, ds, n + 1) == After(Behind(chunks, ds, n), |Frame(ds[n])|)
    ensures AllThere(chunks, ds, n) && !Waits(Behind(chunks, ds, n)) ==> AllThere(chunks, ds, n + 1) == true
  {
    hide After, Frame, Frames, Sane, Waits;
    assert ds[..n + 1] == ds[..n] + [ds[n]];
    FramesMore(ds[..n], ds[n]);
    AfterAfter(chunks, |Frames(ds[..n])|, |Frame(ds[n])|);
  }

  /** No two messages share anything. */
  ghost predicate Apart(msgs: seq<Msg>) {
    forall i, j :: 0 <= i < j < |msgs| ==> msgs[i] != msgs[j] && msgs[i].slot != msgs[j].slot
  }

  /** The first `n` datagrams are in the first slots, the others still in the stream, and the other slots are empty. */
  ghost predicate Delivered(src: Source, msgs: seq<Msg>, ds: seq<Datagram>, n: int, size: nat)
    reads src, set m <- msgs, set m <- msgs :: m.slot
  {
    && 0 <= n <= |ds| && n <= |msgs|
    && (forall i :: 0 <= i < n ==> msgs[i].Holds(ds[i])) && (forall i :: n <= i < |msgs| ==> msgs[i].Ready() && msgs[i].slot.Length == size)
    && AllFit(ds[n..], size) && src.Left() == Frames(ds[n..])
  }

  lemma DeliveredNone(src: Source, msgs: seq<Msg>, ds: seq<Datagram>, size: nat)
    requires AllFit(ds, size) && src.Left() == Frames(ds) && forall m <- msgs :: m.Ready() && m.slot.Length == size
    ensures Delivered(src, msgs, ds, 0, size)
  {
    assert ds[0..] == ds;
  }

  lemma DeliveredCount(src: Source, msgs: seq<Msg>, ds: seq<Datagram>, n: int, size: nat)
    requires Delivered(src, msgs, ds, n, size)
    ensures 0 <= n <= |ds| && n <= |msgs| && (ds[n..] == [] ==> n == |ds|)
  {
  }

  /**
   hev_socks5_udp_recvmmsg_tcp on a stream that carries the datagrams `ds`, in whatever chunks: the
   first datagrams are in the first slots, in order, and the stream carries the others.  It goes on
   until the slots are used up or the stream is over; with `nonblock` it stops at the first datagram
   of which nothing has come yet, with -1 if that is the very first.
   */
  method RecvMmsgTcp(src: Source, msgs: seq<Msg>, nonblock: bool, size: nat, ghost ds: seq<Datagram>) returns (res: int)
    requires AllFit(ds, size) && src.Left() == Frames(ds) && Apart(msgs)
    requires forall m <- msgs :: m.Ready() && m.slot.Length == size
    modifies src, set m <- msgs, set m <- msgs :: m.slot
    ensures res >= -1 && Delivered(src, msgs, ds, if res < 0 then 0 else res, size) && res <= |ds| && res <= |msgs|
    ensures !nonblock ==> res == if |msgs| <= |ds| then |msgs| else |ds|
    ensures res == -1 <==> nonblock && msgs != [] && Waits(old(src.chunks))
    ensures nonblock && res >= 0 ==> Addressed(ds) && AllThere(old(src.chunks), ds, res) == true
    ensures nonblock && 0 <= res < |msgs| && res < |ds| ==> Waits(Behind(old(src.chunks), ds, res))
    ensures res == -1 ==> |src.chunks| < |old(src.chunks)|
    ensures res == 0 ==> ds == [] || msgs == []
  {
    DeliveredNone(src, msgs, ds, size);
    FitAddressed(ds, size);
    BehindNone(src.chunks, ds);
    hide *;
    res := RecvEach(src, msgs, nonblock, size, ds);
  }

  /** The loop. */
  method RecvEach(src: Source, msgs: seq<Msg>, nonblock: bool, size: nat, ghost ds: seq<Datagram>) returns (res: int)
    requires Apart(msgs) == true && Delivered(src, msgs, ds, 0, size) == true && Addressed(ds) == true
    requires Behind(src.chunks, ds, 0) == src.chunks && AllThere(src.chunks, ds, 0) == true
    modifies src, set m <- msgs, set m <- msgs :: m.slot
    ensures res >= -1 && Delivered(src, msgs, ds, if res < 0 then 0 else res, size) == true && res <= |ds| && res <= |msgs|
    ensures res == -1 <==> nonblock && msgs != [] && Waits(old(src.chunks))
    ensures res == -1 ==> |src.chunks| < |old(src.chunks)|
    ensures 0 <= res < |msgs| && res < |ds| ==> nonblock && Waits(Behind(old(src.chunks), ds, res))
    ensures nonblock && res >= 0 ==> AllThere(old(src.chunks), ds, res) == true
  {
    hide *;
    ghost var was := src.chunks;
    res := 0;
    while res < |msgs|
      invariant Delivered(src, msgs, ds, res, size) == true && 0 <= res <= |ds| && res <= |msgs|
      invariant src.chunks == Behind(was, ds, res) && (res == 0 ==> src.chunks == was)
      invariant nonblock ==> AllThere(was, ds, res) == true
      invariant res > 0 && nonblock ==> !Waits(was)
    {
      var more := RecvInto(src, msgs, nonblock, size, ds, res);
      DeliveredCount(src, msgs, ds, if more == 1 then res + 1 else res, size);
      if more != 1 {
        return if res > 0 then res else more;
      }
      BehindNext(was, ds, res);
      res := res + 1;
    }
  }

  /** The next datagram goes to the next slot; the slots before it are left alone. */
  method RecvInto(src: Source, msgs: seq<Msg>, nonblock: bool, size: nat, ghost ds: seq<Datagram>, n: int) returns (more: int)
    requires Apart(msgs) && Delivered(src, msgs, ds, n, size) && n < |msgs|
    modifies src, set m <- msgs, set m <- msgs :: m.slot
    ensures -1 <= more <= 1 && Delivered(src, msgs, ds, if more == 1 then n + 1 else n, size)
    ensures (more == 0 ==> ds[n..] == []) && (more == -1 <==> nonblock && Waits(old(src.chunks)))
    ensures more == -1 ==> |src.chunks| < |old(src.chunks)|
    ensures more == 1 ==> n < |ds| && Sane(ds[n].addr) && src.chunks == After(old(src.chunks), |Frame(ds[n])|)
  {
    FitAddressed(ds[n..], size);
    ApartFrom(msgs, n);
    hide Msg.Holds, Msg.Ready, AllFit, Frames, Sane, After, Waits, Apart;
    more := RecvNext(src, msgs[n], nonblock, size, ds[n..]);
    if more == 1 {
      assert ds[n..][0] == ds[n] && ds[n..][1..] == ds[n + 1..];
    }
  }

  lemma ApartFrom(msgs: seq<Msg>, n: nat)
    requires Apart(msgs) && n < |msgs|
    ensures forall i :: 0 <= i < |msgs| && i != n ==> msgs[i] != msgs[n] && msgs[i].slot != msgs[n].slot
  {
  }

  /** One datagram: 1 if it came, 0 if the stream is over, -1 if there is nothing now. */
  method RecvNext(src: Source, msg: Msg, nonblock: bool, size: nat, ghost ds: seq<Datagram>) returns (res: int)
    requires AllFit(ds, size) && src.Left() == Frames(ds) && msg.Ready() && msg.slot.Length == size
    modifies src, msg, msg.slot
    ensures res == 1 ==> ds != [] && Sane(ds[0].addr) && msg.Holds(ds[0]) && AllFit(ds[1..], size) && src.Left() == Frames(ds[1..])
    ensures res == 0 ==> ds == [] && src.Left() == Frames(ds)
    ensures res == -1 ==> src.Left() == Frames(ds) && |src.chunks| < |old(src.chunks)|
    ensures res == -1 <==> nonblock && Waits(old(src.chunks))
    ensures -1 <= res <= 1 && (res != 1 ==> msg.Ready())
    ensures res == 1 ==> src.chunks == After(old(src.chunks), |Frame(ds[0])|)
  {
    hide Decode, Encode, Frames, Frame, Sane, After, Flat, U16, AddrLen, Msg.Holds, Waits;
    var head;
    res, head := ReadHead(src, nonblock);
    if res != 5 {
      if res >= 0 {
        HeadMissing(ds, size, head);
        res := 0;
      }
      return;
    }
    NotEmpty(ds, head, src.Left());
    HeadStarts(ds, size, head, src.Left());
    FrameLength(head, src.Left(), ds[0], Frames(ds[1..]), size);
    AfterAfter(old(src.chunks), 5, |Frame(ds[0])| - 5);
    res := ReadBody(src, msg, head, ds[0], Frames(ds[1..]));
  }

  lemma FrameLength(head: Bytes, left: Bytes, d: Datagram, rest: Bytes, size: nat)
    requires |head| == 5 && Starts(head, left, d, rest, size)
    ensures |Frame(d)| - 5 == head[2] as int - 5 + U16(head, 0) && |Frame(d)| >= 5
  {
    HeadSays(head, left, d, rest);
  }

  lemma NotEmpty(ds: seq<Datagram>, head: Bytes, left: Bytes)
    requires (forall d <- ds :: Sane(d.addr)) && Frames(ds) == head + left && head != []
    ensures ds != []
  {
  }

  /** Fewer than five bytes before the end: there is no datagram. */
  lemma HeadMissing(ds: seq<Datagram>, size: nat, head: Bytes)
    requires AllFit(ds, size) && |head| < 5 && Frames(ds) == head + []
    ensures ds == [] && Frames(ds) == []
  {
    if ds != [] {
      FramesNext(ds, size);
    }
  }
}
