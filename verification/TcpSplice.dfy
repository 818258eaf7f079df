/** A SOCKS5 session between a TCP connection of the tunnel (the `pcb`) and a socket: both directions of the splice. */
module TcpSplice {
  import opened ByteOrder
  import Rings = RingBuffer

  /** What the network side does while the task is not running: the callbacks that the session registered. */
  datatype Event = Sent(len: nat) | Gone | Packet(p: Bytes) | Fin

  /** What `readv` on the socket answers; the end and an error stay. */
  datatype Read = Data(bytes: Bytes) | End | NotYet | Broken

  /** What `writev` on the socket answers. */
  datatype Write = Wrote(count: nat) | Full | Failed

  const MAX_IOV: nat := 64

  ghost function Flatten(q: seq<Bytes>): Bytes {
    if q == [] then [] else q[0] + Flatten(q[1..])
  }

  /** The bytes of the first 64 packets. */
  ghost function Offered(q: seq<Bytes>): nat {
    |Flatten(q[..if |q| < 64 then |q| else 64])|
  }

  lemma {:induction false} FlattenSum(a: seq<Bytes>, b: seq<Bytes>)
    ensures Flatten(a + b) == Flatten(a) + Flatten(b)
  {
    if a == [] {
      assert a + b == b;
    } else {
      assert (a + b)[1..] == a[1..] + b;
      FlattenSum(a[1..], b);
    }
  }

  lemma FlattenOne(p: Bytes)
    ensures Flatten([p]) == p
  {
    assert [p][1..] == [];
  }

  /** pbuf_free_header: the first `n` bytes of the chain are gone. */
  function FreeHeader(q: seq<Bytes>, n: nat): (r: seq<Bytes>) {
    if q == [] then []
    else if n >= |q[0]| then FreeHeader(q[1..], n - |q[0]|)
    else [q[0][n..]] + q[1..]
  }

  lemma {:induction false} FreeHeaderIs(q: seq<Bytes>, n: nat)
    requires n <= |Flatten(q)|
    ensures Flatten(FreeHeader(q, n)) == Flatten(q)[n..]
  {
    if q != [] {
      var (x, y) := (q[0], Flatten(q[1..]));
      if n >= |x| {
        FreeHeaderIs(q[1..], n - |x|);
        assert (x + y)[n..] == y[n - |x|..];
      } else {
        assert ([x[n..]] + q[1..])[1..] == q[1..];
        assert (x + y)[n..] == x[n..] + y;
      }
    }
  }

  lemma {:induction false} FreeHeaderFull(q: seq<Bytes>, n: nat)
    requires forall p <- q :: p != []
    ensures forall p <- FreeHeader(q, n) :: p != []
  {
    if q != [] {
      assert forall p <- q[1..] :: p in q;
      if n >= |q[0]| {
        FreeHeaderFull(q[1..], n - |q[0]|);
      }
    }
  }

  lemma FlattenTake(q: seq<Bytes>, k: nat)
    requires k <= |q|
    ensures Flatten(q[..k]) <= Flatten(q)
  {
    FlattenSum(q[..k], q[k..]);
    assert q == q[..k] + q[k..];
  }

  /** What a socket with that input gives to a reader with so much room, who does not ask if there is none. */
  function Answer(input: seq<Read>, room: nat): Read {
    if room == 0 then NotYet
    else if input == [] || input[0] == Data([]) then End
    else if input[0].Data? && |input[0].bytes| > room then Data(input[0].bytes[..room])
    else input[0]
  }

  /** And what it has left then. */
  function Remaining(input: seq<Read>, room: nat): seq<Read> {
    if room == 0 || input == [] || input[0] == Data([]) || input[0] == End || input[0] == Broken then input
    else if input[0].Data? && |input[0].bytes| > room then [Data(input[0].bytes[room..])] + input[1..]
    else input[1..]
  }

  /** All the bytes that the socket is going to give. */
  ghost function Coming(input: seq<Read>): Bytes {
    if input == [] then [] else
    match input[0]
    case Data(bytes) => if bytes == [] then [] else bytes + Coming(input[1..])
    case NotYet => Coming(input[1..])
    case _ => []
  }

  ghost function Bytes_(r: Read): Bytes {
    if r.Data? then r.bytes else []
  }

  lemma AnswerComes(input: seq<Read>, room: nat)
    ensures Coming(input) == Bytes_(Answer(input, room)) + Coming(Remaining(input, room))
    ensures Answer(input, room) == End ==> Coming(input) == [] && Remaining(input, room) == input
    ensures Answer(input, room).Data? ==> 0 < |Answer(input, room).bytes| <= room
  {
    if input != [] && input[0].Data? && |input[0].bytes| > room {
      var b := input[0].bytes;
      assert ([Data(b[room..])] + input[1..])[1..] == input[1..];
      assert b[..room] + (b[room..] + Coming(input[1..])) == b + Coming(input[1..]);
    }
  }

  /** How much of the offered bytes the socket takes; -1 if it would block, 0 if it fails. */
  function Taken(output: seq<Write>, offered: nat): (s: int)
    ensures -1 <= s <= offered
  {
    if output == [] || output[0] == Full then -1
    else if output[0] == Failed then 0
    else if output[0].count <= offered then output[0].count else offered
  }

  function Rest<T>(s: seq<T>): seq<T> {
    if s == [] then [] else s[1..]
  }

  /** Nothing fails: no error, no refused write, no lost connection. */
  ghost predicate Fair(input: seq<Read>, output: seq<Write>, taken: seq<bool>, pauses: seq<seq<Event>>, waits: seq<seq<Event>>) {
    && (forall r <- input :: r != Broken) && (forall w <- output :: w != Failed && w != Wrote(0)) && (forall b <- taken :: b)
    && (forall es <- pauses :: Gone !in es) && (forall es <- waits :: Gone !in es)
  }

  /**
   What the environment of a session is going to do: the answers of calls, and the callbacks at each
   pause and at each wait for the lock.  It records whether anything failed.
   */
  class World {
    var input: seq<Read>
    var output: seq<Write>
    var taken: seq<bool>
    var pauses: seq<seq<Event>>
    var waits: seq<seq<Event>>
    ghost const fair: bool
    ghost var failed: bool

    constructor (input: seq<Read>, output: seq<Write>, taken: seq<bool>, pauses: seq<seq<Event>>, waits: seq<seq<Event>>)
      ensures Sane() && !failed && this.input == input && this.pauses == pauses && fair == Fair(input, output, taken, pauses, waits)
    {
      this.input, this.output, this.taken, this.pauses, this.waits := input, output, taken, pauses, waits;
      fair, failed := Fair(input, output, taken, pauses, waits), false;
    }

    ghost predicate Sane()
      reads this
    {
      fair ==> Fair(input, output, taken, pauses, waits)
    }

    /** `readv` */
    method Read_(room: nat) returns (answer: Read)
      requires Sane() && room > 0
      modifies this`input, this`failed
      ensures Sane() && answer == Answer(old(input), room) && input == Remaining(old(input), room)
      ensures failed == (old(failed) || answer == Broken) && (answer == Broken ==> !fair)
    {
      if fair {
        FairRead(room);
      }
      answer, input := Answer(input, room), Remaining(input, room);
      failed := failed || answer == Broken;
    }

    lemma FairRead(room: nat)
      requires fair && Fair(input, output, taken, pauses, waits)
      ensures Answer(input, room) != Broken && forall r <- Remaining(input, room) :: r != Broken
    {
      if input != [] {
        assert input[0] in input && forall r <- input[1..] :: r in input;
      }
    }

    /** `writev` */
    method Write_(offered: nat) returns (s: int)
      requires Sane() && offered > 0
      modifies this`output, this`failed
      ensures Sane() && s == Taken(old(output), offered) && output == Rest(old(output))
      ensures failed == (old(failed) || s == 0) && (s == 0 ==> !fair)
    {
      assert (output != [] ==> output[0] in output) && forall w <- Rest(output) :: w in output;
      s, output := Taken(output, offered), Rest(output);
      failed := failed || s == 0;
    }

    /** `tcp_write` */
    method Take() returns (ok: bool)
      requires Sane()
      modifies this`taken, this`failed
      ensures Sane() && ok == (old(taken) == [] || old(taken)[0]) && taken == Rest(old(taken))
      ensures failed == (old(failed) || !ok) && (!ok ==> !fair)
    {
      assert (taken != [] ==> taken[0] in taken) && forall b <- Rest(taken) :: b in taken;
      ok, taken := taken == [] || taken[0], Rest(taken);
      failed := failed || !ok;
    }

    /** The task yields; not `ok` when the session has run out of time or was terminated. */
    method Pause() returns (ok: bool, events: seq<Event>)
      requires Sane()
      modifies this`pauses, this`failed
      ensures Sane() && ok == (old(pauses) != []) && pauses == Rest(old(pauses)) && (ok ==> events == old(pauses)[0])
      ensures failed == (old(failed) || !ok) && (fair ==> Gone !in events)
    {
      ok, events := pauses != [], [];
      if ok {
        events := pauses[0];
      }
      pauses := Rest(pauses);
      failed := failed || !ok;
    }

    /** The task waits for the lock. */
    method Wait() returns (events: seq<Event>)
      requires Sane()
      modifies this`waits
      ensures Sane() && events == (if old(waits) == [] then [] else old(waits)[0]) && waits == Rest(old(waits))
      ensures fair ==> Gone !in events
    {
      events := if waits == [] then [] else waits[0];
      waits := Rest(waits);
    }

    /** The connection is lost. */
    ghost method Lose()
      requires Sane() && !fair
      modifies this`failed
      ensures Sane() && failed
    {
      failed := true;
    }
  }

  /**
   What there is to see of a session: where the bytes of both directions are, and what has happened.
   `coming` is what the socket has not given yet, `late` that no pause is left, and `fair` that the
   environment never fails.
   */
  datatype View = View(pcb: bool, eof: bool, ended: bool, finFd: bool, finPcb: bool, broken: bool, late: bool, fair: bool, queue: seq<Bytes>,
                       coming: Bytes, received: Bytes, handed: Bytes, acked: Bytes, inFlight: Bytes, unread: Bytes, fromTun: Bytes, toFd: Bytes)

  /**
   No byte is lost, repeated or changed.  What came from the socket is acknowledged, in flight or unread;
   while nothing is broken, what the connection was given is what was acknowledged and what still lies
   in flight; and what the connection sent is written or queued.
   */
  ghost predicate Whole(v: View) {
    && v.received == v.acked + v.inFlight + v.unread
    && (!v.broken ==> v.handed == v.acked + v.inFlight && v.pcb)
    && v.fromTun == v.toFd + Flatten(v.queue) && (forall p <- v.queue :: p != [])
    && (v.ended ==> v.coming == [])
  }

  /** What never goes back, and that nothing breaks in a fair world before its time. */
  ghost predicate Later(a: View, b: View) {
    && a.received <= b.received && a.handed <= b.handed && a.acked <= b.acked && a.fromTun <= b.fromTun && a.toFd <= b.toFd
    && (a.broken ==> b.broken) && (!b.broken ==> b.pcb) && (b.pcb ==> a.pcb)
    && (a.eof ==> b.eof) && (a.ended ==> b.ended) && (a.finFd ==> b.finFd) && (a.finPcb ==> b.finPcb)
    && (a.eof && a.queue == [] && !b.broken ==> b.queue == []) && (a.ended && a.unread == [] ==> b.unread == [])
    && a.received + a.coming == b.received + b.coming
    && a.fair == b.fair && (a.late ==> b.late) && (a.fair && b.broken ==> a.broken || b.late)
  }

  lemma LaterTwice(a: View, b: View, c: View)
    requires Later(a, b) && Later(b, c)
    ensures Later(a, c)
  {
  }

  lemma LaterSame(a: View)
    requires !a.broken ==> a.pcb
    ensures Later(a, a)
  {
  }

  /**
   `received` came from the socket, `handed` went to the connection, `acked` was acknowledged by it;
   `fromTun` was accepted from the connection and `toFd` written to the socket.  `finFd` and `finPcb`
   are the shutdowns of the sending sides.  Whether anything failed is for the world to say.
   */
  class Session {
    const ring: Rings.RingBuffer
    const world: World
    const window: nat
    var pcb: bool
    var eof: bool
    var ended: bool
    var queue: seq<Bytes>
    var finFd: bool
    var finPcb: bool
    ghost var received: Bytes
    ghost var handed: Bytes
    ghost var acked: Bytes
    ghost var fromTun: Bytes
    ghost var toFd: Bytes

    ghost function See(): View
      requires ring.Valid()
      reads this, ring, ring.data, world
    {
      View(pcb, eof, ended, finFd, finPcb, world.failed, world.pauses == [], world.fair, queue,
           Coming(world.input), received, handed, acked, ring.InFlight(), ring.Unread(), fromTun, toFd)
    }

    /** The session as `v` shows it. */
    ghost predicate Shows(v: View)
      reads this, ring, ring.data, world
    {
      ring.Valid() && world.Sane() && v == See() && Whole(v)
    }

    lemma ShowsIs(v: View)
      ensures Shows(v) <==> ring.Valid() && world.Sane() && v == See() && Whole(v)
    {
    }

    constructor (size: nat, window: nat, world: World)
      requires size > 0 && world.Sane() && !world.failed
      ensures Shows(View(true, false, false, false, false, false, world.pauses == [], world.fair, [], Coming(world.input),
                         [], [], [], [], [], [], []))
      ensures fresh(ring) && fresh(ring.data) && this.world == world && this.window == window
    {
      ring := new Rings.RingBuffer(size);
      this.window, this.world := window, world;
      pcb, eof, ended, finFd, finPcb, queue := true, false, false, false, false, [];
      received, handed, acked, fromTun, toFd := [], [], [], [], [];
      new;
      EmptySums([]);
    }

    // -------------------------------------------------------------- the callbacks

    /** tcp_sent_handler: the connection has no more use for the oldest `len` bytes. */
    method SentHandler(len: nat, ghost v: View) returns (ghost v': View)
      requires Shows(v) == true && len <= |v.inFlight|
      modifies this`acked, ring
      ensures Shows(v') == true && Later(v, v') == true && Meanwhile(v, v') == true
      ensures v' == v.(acked := v.acked + v.inFlight[..len], inFlight := v.inFlight[len..])
    {
      v' := v.(acked := v.acked + v.inFlight[..len], inFlight := v.inFlight[len..]);
      Moved(v.acked, v.inFlight, v.unread, len);
      hide Whole, Later;
      WholeSent(v, len);
      ring.ReadRelease(len);
      acked := v'.acked;
    }

    /** tcp_err_handler: the connection is gone. */
    method ErrHandler(ghost v: View) returns (ghost v': View)
      requires Shows(v) == true && !v.fair
      modifies this`pcb, world`failed
      ensures Shows(v') == true && Later(v, v') == true && Meanwhile(v, v') == true && v' == v.(pcb := false, broken := true)
    {
      world.Lose();
      pcb := false;
      v' := v.(pcb := false, broken := true);
    }

    /** tcp_recv_handler: the packet joins the queue, unless the queue is full already; no packet means the end. */
    method RecvHandler(p: Bytes, fin: bool, ghost v: View) returns (accepted: bool, ghost v': View)
      requires Shows(v) == true && (fin || (!v.eof && p != []))
      modifies this`queue, this`eof, this`fromTun
      ensures Shows(v') == true && Later(v, v') == true && Meanwhile(v, v') == true
      ensures accepted == (fin || v.queue == [] || |Flatten(v.queue)| <= window)
      ensures v' == if fin then v.(eof := true)
                    else if accepted then v.(queue := v.queue + [p], fromTun := v.fromTun + p) else v
    {
      ShowsIs(v);
      SeeIs();
      hide *;
      accepted := true;
      if fin {
        v' := Finish(v);
        return;
      }
      var total := Total(queue);
      if queue != [] && total > window {
        LaterSame(v);
        MeanwhileNone(v);
        return false, v;
      }
      v' := Enqueue(p, v);
    }

    method Finish(ghost v: View) returns (ghost v': View)
      requires Shows(v) == true
      modifies this`eof
      ensures Shows(v') == true && Later(v, v') == true && Meanwhile(v, v') == true && v' == v.(eof := true)
    {
      hide *;
      ShowsIs(v);
      SeeIs();
      EofIs(v);
      v' := v.(eof := true);
      eof := true;
      SeeIs();
      ShowsIs(v');
    }

    method Enqueue(p: Bytes, ghost v: View) returns (ghost v': View)
      requires Shows(v) == true && !v.eof && p != []
      modifies this`queue, this`fromTun
      ensures Shows(v') == true && Later(v, v') == true && Meanwhile(v, v') == true
      ensures v' == v.(queue := v.queue + [p], fromTun := v.fromTun + p)
    {
      hide *;
      ShowsIs(v);
      SeeIs();
      WholeQueued(v, p);
      v' := v.(queue := v.queue + [p], fromTun := v.fromTun + p);
      EmptyQueue(queue, p);
      if queue == [] {
        queue := [p];
      } else {
        queue := queue + [p];
      }
      fromTun := fromTun + p;
      SeeIs();
      ShowsIs(v');
    }

    lemma EmptyQueue(q: seq<Bytes>, p: Bytes)
      ensures q == [] ==> q + [p] == [p]
    {
    }

    /** `tot_len` */
    static method Total(q: seq<Bytes>) returns (n: nat)
      ensures n == |Flatten(q)|
    {
      n := 0;
      for i := 0 to |q|
        invariant n == |Flatten(q[..i])|
      {
        assert q[..i + 1] == q[..i] + [q[i]];
        FlattenSum(q[..i], [q[i]]);
        FlattenOne(q[i]);
        n := n + |q[i]|;
      }
      assert q[..|q|] == q;
    }

    /**
     The callbacks at one pause.  A connection acknowledges nothing it was not given, sends nothing
     after its end, and no packet is empty.
     */
    method Callbacks(events: seq<Event>, ghost v: View) returns (ghost v': View)
      requires Shows(v) == true && (v.fair ==> Gone !in events)
      modifies this, ring, world`failed
      ensures Shows(v') == true && Later(v, v') == true && Meanwhile(v, v') == true && v'.broken == (v.broken || Gone in events)
    {
      v' := v;
      MeanwhileNone(v);
      ShowsIs(v);
      LaterSame(v);
      hide *;
      for i := 0 to |events|
        invariant Shows(v') == true && Later(v, v') == true && Meanwhile(v, v') == true && v'.broken == (v.broken || Gone in events[..i])
        invariant v'.fair == v.fair
      {
        ghost var next := Callback(events[i], v');
        LaterTwice(v, v', next);
        MeanwhileTwice(v, v', next);
        v' := next;
        assert events[..i + 1] == events[..i] + [events[i]];
      }
      assert events[..|events|] == events;
    }

    method Callback(event: Event, ghost v: View) returns (ghost v': View)
      requires Shows(v) == true && (v.fair ==> event != Gone)
      modifies this, ring, world`failed
      ensures Shows(v') == true && Later(v, v') == true && Meanwhile(v, v') == true && v'.broken == (v.broken || event == Gone)
      ensures v'.fair == v.fair
    {
      hide *;
      ShowsIs(v);
      SeeIs();
      InFlightSize();
      BrokenGone(v);
      LaterSame(v);
      MeanwhileNone(v);
      v' := v;
      if pcb {
        match event {
          case Sent(len) =>
            var most := ring.useSize - ring.rdaSize;
            v' := SentHandler(if len <= most then len else most, v);
          case Gone => v' := ErrHandler(v);
          case Packet(p) =>
            if !eof && p != [] {
              var accepted;
              accepted, v' := RecvHandler(p, false, v);
            }
          case Fin =>
            var accepted;
            accepted, v' := RecvHandler([], true, v);
        }
      }
    }

    lemma BrokenGone(v: View)
      requires Shows(v)
      ensures pcb == v.pcb && eof == v.eof && (!v.broken ==> v.pcb)
    {
    }

    lemma InFlightSize()
      requires ring.Valid()
      ensures |ring.InFlight()| == ring.useSize - ring.rdaSize && |ring.Unread()| == ring.rdaSize
      ensures ring.rp < ring.Max() && ring.rdaSize <= ring.useSize <= ring.Max()
      ensures forall v <- Rings.Spans(ring.Max(), ring.rp, ring.rdaSize) :: v.base + v.len <= ring.data.Length
    {
    }

    /** hev_task_mutex_lock: waiting for the lock lets the network side run. */
    method Lock(ghost v: View) returns (ghost v': View)
      requires Shows(v) == true
      modifies this, ring, world`waits, world`failed
      ensures Shows(v') == true && Later(v, v') == true && Meanwhile(v, v') == true
      ensures world.waits == Rest(old(world.waits)) && v'.broken == (v.broken || (old(world.waits) != [] && Gone in old(world.waits)[0]))
    {
      ShowsIs(v);
      SeeIs();
      hide *;
      var events := world.Wait();
      SeeIs();
      ShowsIs(v);
      RestIs(old(world.waits));
      v' := Callbacks(events, v);
    }

    lemma RestIs<T>(s: seq<T>)
      ensures Rest(s) == if s == [] then [] else s[1..]
    {
    }

    // -------------------------------------------------------------- from the connection to the socket

    /**
     tcp_splice_f: 1 for progress, 0 for nothing to do now, -1 for the end.  With nothing queued it
     tells the socket the end, if it has come; otherwise it is the socket that says how far it gets.
     */
    method SpliceF(ghost v: View) returns (res: int, ghost v': View)
      requires Shows(v) == true
      modifies this, ring, world
      ensures Shows(v') == true && Later(v, v') == true
      ensures world.pauses == old(world.pauses) && world.input == old(world.input) && world.taken == old(world.taken)
      ensures v.queue == [] ==> res == (if v.eof then -1 else 0) && v' == v.(finFd := v.finFd || v.eof)
      ensures v.queue != [] ==> Sends(v, v', old(world.output), old(world.waits), res) == true && world.output == Rest(old(world.output))
    {
      hide *;
      ShowsIs(v);
      SeeIs();
      SeeIs2(v);
      LaterSame(v);
      res, v' := 0, v;
      if queue != [] {
        res, v' := SendQueue(v);
      } else if eof {
        v' := ShutFd(v);
        res := -1;
      }
    }

    /** The first packets of the queue are offered to the socket. */
    method SendQueue(ghost v: View) returns (res: int, ghost v': View)
      requires Shows(v) == true && v.queue == queue != []
      modifies this, ring, world
      ensures Shows(v') == true && Later(v, v') == true && Sends(v, v', old(world.output), old(world.waits), res) == true
      ensures world.pauses == old(world.pauses) && world.input == old(world.input) && world.taken == old(world.taken)
      ensures world.output == Rest(old(world.output))
    {
      hide *;
      ghost var (output, waits) := (world.output, world.waits);
      var s;
      s, v' := Offer(v);
      SendsIs(v, v', output, waits, s);
      if s <= 0 {
        return if s < 0 then 0 else -1, v';
      }
      OfferedLess(v, output);
      v' := Write(s, v');
      SendsMore(v, v', output, waits, s);
      res := 1;
    }

    /** The first packets go to `writev`. */
    method Offer(ghost v: View) returns (s: int, ghost v': View)
      requires Shows(v) == true && v.queue == queue != []
      modifies world`output, world`failed
      ensures Shows(v') == true && Later(v, v') == true && v' == v.(broken := v.broken || s == 0)
      ensures s == Taken(old(world.output), Offered(v.queue)) && world.output == Rest(old(world.output))
    {
      hide *;
      ShowsIs(v);
      var iovc := if |queue| < MAX_IOV then |queue| else MAX_IOV;
      var offered := Total(queue[..iovc]);
      SomethingOffered(v, iovc);
      s, v' := Writev(offered, v);
    }

    /** `writev` */
    method Writev(offered: nat, ghost v: View) returns (s: int, ghost v': View)
      requires Shows(v) == true && offered > 0
      modifies world`output, world`failed
      ensures Shows(v') == true && Later(v, v') == true && v' == v.(broken := v.broken || s == 0)
      ensures s == Taken(old(world.output), offered) && world.output == Rest(old(world.output))
    {
      hide *;
      ShowsIs(v);
      SeeIs();
      s := world.Write_(offered);
      v' := v.(broken := v.broken || s == 0);
      WholeFails(v, v');
      SeeIs();
      ShowsIs(v');
    }

    /** `shutdown (fd, SHUT_WR)` */
    method ShutFd(ghost v: View) returns (ghost v': View)
      requires Shows(v) == true
      modifies this`finFd
      ensures Shows(v') == true && Later(v, v') == true && v' == v.(finFd := true)
    {
      finFd := true;
      v' := v.(finFd := true);
    }

    /** `s` bytes of the queue were written. */
    method Write(s: nat, ghost v: View) returns (ghost v': View)
      requires Shows(v) == true && s <= |Flatten(v.queue)|
      modifies this, ring, world`waits, world`failed
      ensures Shows(v') == true && Later(v, v') == true && v'.toFd == v.toFd + Flatten(v.queue)[..s]
      ensures v'.broken == (v.broken || (old(world.waits) != [] && Gone in old(world.waits)[0]))
    {
      hide *;
      ghost var v1 := Lock(v);
      MeanwhileQueue(v, v1, s);
      ShowsIs(v1);
      SeeIs();
      WholeWritten(v1, s);
      toFd := toFd + Flatten(queue)[..s];
      queue := FreeHeader(queue, s);
      v' := v1.(toFd := v1.toFd + Flatten(v1.queue)[..s], queue := FreeHeader(v1.queue, s));
      SeeIs();
      ShowsIs(v');
      LaterTwice(v, v1, v');
    }

    lemma SeeIs()
      requires ring.Valid()
      ensures See() == View(pcb, eof, ended, finFd, finPcb, world.failed, world.pauses == [], world.fair, queue,
                            Coming(world.input), received, handed, acked, ring.InFlight(), ring.Unread(), fromTun, toFd)
    {
    }

    // -------------------------------------------------------------- from the socket to the connection

    /** The scattering part of `readv`: the bytes go to the spans in order. */
    method Store(iov: seq<Rings.Iovec>, x: Bytes)
      requires ring.Valid() && iov == Rings.Spans(ring.Max(), ring.wp, ring.Max() - ring.useSize) && |x| <= ring.Max() - ring.useSize
      modifies ring.data
      ensures Rings.OnlyIn(old(ring.data[..]), ring.data[..], iov) && Rings.Span(ring.data[..], ring.wp, |x|) == x
    {
      ghost var d := ring.data[..];
      var (max, wp) := (ring.Max(), ring.wp);
      for i := 0 to |x|
        invariant forall j :: 0 <= j < i ==> ring.data[Rings.Ahead(max, wp, j)] == x[j]
        invariant Rings.OnlyIn(d, ring.data[..], iov)
      {
        Rings.SpansPlace(max, wp, max - ring.useSize, i);
        SpansHold(max, wp, max - ring.useSize, i);
        var place := if i < iov[0].len then iov[0].base + i else i - iov[0].len;
        ghost var before := ring.data[..];
        ring.data[place] := x[i];
        assert ring.data[..] == before[place := x[i]];
      }
    }

    /** `readv` into the free room of the ring, and write_finish. */
    method Fill(ghost v: View) returns (res: int, ghost v': View)
      requires Shows(v) == true
      modifies this`received, this`ended, ring, ring.data, world`input, world`failed
      ensures Shows(v') == true && Later(v, v') == true
      ensures |v.inFlight| + |v.unread| <= ring.Max() && world.input == Remaining(old(world.input), Room(v))
      ensures v' == Filled(v, old(world.input), Room(v)) && res == Progress(Answer(old(world.input), Room(v)))
    {
      hide *;
      FillFacts(v);
      ghost var input := world.input;
      var iov := ring.Writing();
      if iov == [] {
        return 0, v;
      }
      var room := ring.Max() - ring.useSize;
      FilledBy(v, input, room);
      ProgressIs(input, room);
      var answer;
      answer, v' := Ask(room, v);
      res := Progress(answer);
      if answer.Data? {
        v' := Accept(iov, answer.bytes, v');
      }
      FilledLater(v, input, room, v');
    }

    lemma FillFacts(v: View)
      requires Shows(v)
      ensures ring.Valid() && |v.inFlight| + |v.unread| <= ring.Max() && Room(v) == ring.Max() - ring.useSize
      ensures Later(v, v) == true && Whole(v) == true && (!v.broken ==> v.pcb) && v.coming == Coming(world.input)
      ensures Room(v) == 0 ==>
        v == Filled(v, world.input, 0) && Remaining(world.input, 0) == world.input && Progress(Answer(world.input, 0)) == 0
    {
      InFlightSize();
      FilledNone(v, world.input);
    }

    method Ask(room: nat, ghost v: View) returns (answer: Read, ghost v': View)
      requires Shows(v) == true && room > 0
      modifies this`ended, world`input, world`failed
      ensures Shows(v') == true && answer == Answer(old(world.input), room) && world.input == Remaining(old(world.input), room)
      ensures v' == v.(coming := Coming(world.input), ended := v.ended || answer == End, broken := v.broken || answer == Broken)
      ensures answer == Broken ==> !v.fair
    {
      ShowsIs(v);
      WholeRead(v, world.input, room);
      SeeIs();
      hide *;
      answer := world.Read_(room);
      ended := ended || answer == End;
      v' := v.(coming := Coming(world.input), ended := v.ended || answer == End, broken := v.broken || answer == Broken);
      SeeIs();
      ShowsIs(v');
    }

    ghost function Room(v: View): nat
      requires |v.inFlight| + |v.unread| <= ring.Max()
    {
      ring.Max() - |v.inFlight| - |v.unread|
    }

    /** The bytes that were read are in the ring; what was there is as it was. */
    method Accept(iov: seq<Rings.Iovec>, x: Bytes, ghost v: View) returns (ghost v': View)
      requires Shows(v) == true && ring.Valid()
      requires iov == Rings.Spans(ring.Max(), ring.wp, ring.Max() - ring.useSize) && |x| <= ring.Max() - ring.useSize
      modifies this`received, ring, ring.data
      ensures Shows(v') == true && v' == v.(received := v.received + x, unread := v.unread + x)
    {
      ShowsIs(v);
      SeeIs();
      WholeAccepted(v, x);
      hide *;
      Keep(iov, x);
      received := received + x;
      v' := v.(received := v.received + x, unread := v.unread + x);
      SeeIs();
      ShowsIs(v');
    }

    /** Storing and write_finish. */
    method Keep(iov: seq<Rings.Iovec>, x: Bytes)
      requires ring.Valid() && iov == Rings.Spans(ring.Max(), ring.wp, ring.Max() - ring.useSize) && |x| <= ring.Max() - ring.useSize
      modifies ring, ring.data
      ensures ring.Valid() && ring.InFlight() == old(ring.InFlight()) && ring.Unread() == old(ring.Unread()) + x
    {
      ghost var d := ring.data[..];
      Store(iov, x);
      Rings.WritingIsSafe(d, ring.data[..], ring.rp, ring.rdaSize, ring.useSize);
      ring.WriteFinish(|x|);
    }

    /** tcp_write for each span, without copying: what the connection was given is what lies there. */
    method Hand(iov: seq<Rings.Iovec>) returns (err: bool, s: nat, ghost given: Bytes)
      requires (forall v <- iov :: v.base + v.len <= ring.data.Length) && world.Sane()
      modifies world`taken, world`failed
      ensures world.Sane() && world.failed == (old(world.failed) || err) && (err ==> !world.fair)
      ensures err == (false in Front(old(world.taken), |iov|))
      ensures (!err ==> given == Rings.Gather(ring.data[..], iov)) && s == |Rings.Gather(ring.data[..], iov)|
    {
      ghost var d := ring.data[..];
      err, s, given := false, 0, [];
      for i := 0 to |iov|
        invariant d == ring.data[..] && (forall v <- iov[i..] :: v.base + v.len <= |d|)
        invariant !err ==> given + Rings.Gather(d, iov[i..]) == Rings.Gather(d, iov)
        invariant s + |Rings.Gather(d, iov[i..])| == |Rings.Gather(d, iov)|
        invariant world.Sane() && world.failed == (old(world.failed) || err) && (err ==> !world.fair)
        invariant world.taken == Behind(old(world.taken), i) && err == (false in Front(old(world.taken), i))
      {
        assert iov[i..][0] == iov[i] && iov[i..][1..] == iov[i + 1..];
        FrontMore(old(world.taken), i);
        var ok := world.Take();
        if ok {
          Joined(given, d[iov[i].base..][..iov[i].len], Rings.Gather(d, iov[i + 1..]));
          given := given + d[iov[i].base..][..iov[i].len];
        } else {
          err := true;
        }
        s := s + iov[i].len;
      }
      assert iov[|iov|..] == [];
    }

    /** All that is unread goes to the connection, and counts as read. */
    method Pass(iov: seq<Rings.Iovec>, ghost v: View) returns (err: bool, ghost v': View)
      requires Shows(v) == true && ring.Valid() && iov == Rings.Spans(ring.Max(), ring.rp, ring.rdaSize)
      requires Rings.Gather(ring.data[..], iov) == v.unread
      modifies this`handed, ring, world`taken, world`failed
      ensures Shows(v') == true && Later(v, v') == true && err == (false in Front(old(world.taken), |iov|))
      ensures v' == v.(broken := v.broken || err, handed := v'.handed, inFlight := v.inFlight + v.unread, unread := [])
    {
      ShowsIs(v);
      SeeIs();
      var s;
      ghost var given;
      InFlightSize();
      hide *;
      err, s, given := Hand(iov);
      SeeIs();
      v' := Passed(s, err, given, v);
    }

    /** read_finish, after the connection was given all that was unread. */
    method Passed(s: nat, err: bool, ghost given: Bytes, ghost v: View) returns (ghost v': View)
      requires ring.Valid() && world.Sane() && Whole(v) == true && See() == v.(broken := v.broken || err)
      requires s == |v.unread| && (!err ==> given == v.unread) && (err ==> !v.fair)
      modifies this`handed, ring
      ensures Shows(v') == true && Later(v, v') == true
      ensures v' == v.(broken := v.broken || err, handed := v.handed + given, inFlight := v.inFlight + v.unread, unread := [])
    {
      SeeIs();
      InFlightSize();
      hide *;
      WholePassed(v, err, given);
      ring.ReadFinish(s);
      handed := handed + given;
      v' := v.(broken := v.broken || err, handed := v.handed + given, inFlight := v.inFlight + v.unread, unread := []);
      SeeIs();
      ShowsIs(v');
    }

    /**
     tcp_splice_b: 1 for progress, 0 for nothing to do now, -1 for the end.  What the socket answers
     decides it, and nothing breaks but for an error of the socket, a connection that went away while
     the task waited, and a refused write.
     */
    method SpliceB(ghost v: View) returns (res: int, ghost v': View)
      requires Shows(v) == true
      modifies this, ring, ring.data, world
      ensures Shows(v') == true && Later(v, v') == true
      ensures |v.inFlight| + |v.unread| <= ring.Max() && Receives(v, v', old(world.input), Room(v), res) == true
      ensures world.input == Remaining(old(world.input), Room(v)) && world.waits == Rest(old(world.waits))
      ensures Breaks(v, v', Answer(old(world.input), Room(v)), old(world.waits), old(world.taken)) == true
      ensures world.pauses == old(world.pauses) && world.output == old(world.output)
    {
      hide *;
      ghost var v1, v2;
      SeeIs2(v);
      res, v1 := Fill(v);
      v2 := Lock(v1);
      LaterTwice(v, v1, v2);
      MeanwhileEnded(v1, v2);
      ShowsIs(v2);
      SeeIs();
      v' := v2;
      var err := false;
      ghost var n := 0;
      if pcb {
        var iov := ring.Reading();
        if iov != [] {
          n := |iov|;
          InFlightSize();
          FewSpans(ring.Max(), ring.rp, ring.rdaSize);
          err, v' := Pass(iov, v2);
          res := 1;
        } else if res < 0 {
          v' := ShutPcb(v2);
        }
        LaterTwice(v, v2, v');
      }
      SeeIs2(v');
      if !pcb || err {
        res := -1;
      }
      ReceivesIs(v, v1, v2, v', old(world.input), Room(v), old(world.waits), old(world.taken), n, res);
    }

    lemma SeeIs2(v: View)
      requires Shows(v) == true
      ensures pcb == v.pcb && (!v.broken ==> v.pcb)
    {
    }

    // -------------------------------------------------------------- the task

    /** task_io_yielder: the network side runs; negative when the session has run out of time or was terminated. */
    method Pause(ghost v: View) returns (res: int, ghost v': View)
      requires Shows(v) == true
      modifies this, ring, world`pauses, world`failed
      ensures Shows(v') == true && Later(v, v') == true && (res < 0 ==> v'.broken)
      ensures res >= 0 ==> |world.pauses| < old(|world.pauses|)
    {
      ShowsIs(v);
      SeeIs();
      hide *;
      var ok, events := world.Pause();
      ghost var v1 := v.(late := world.pauses == [], broken := v.broken || !ok);
      RestIs(old(world.pauses));
      WholeLate(v, v1);
      SeeIs();
      ShowsIs(v1);
      if !ok {
        return -1, v1;
      }
      v' := Callbacks(events, v1);
      LaterTwice(v, v1, v');
      res := 0;
    }

    /** The first loop: both directions, until both have ended. */
    method Run(ghost v0: View) returns (ghost v: View)
      requires Shows(v0) == true && (!v0.broken ==> v0.pcb)
      modifies this, ring, ring.data, world
      ensures Shows(v) == true && Later(v0, v) == true && (!v.broken ==> Ended(v) == true)
    {
      LaterSame(v0);
      hide *;
      var resF, resB := 1, 1;
      v := v0;
      while true
        invariant Shows(v) == true && Later(v0, v) == true && -1 <= resF <= 1 && -1 <= resB <= 1
        invariant resF < 0 ==> DoneF(v) == true
        invariant resB < 0 ==> DoneB(v) == true
        decreases |world.pauses|
      {
        ghost var v1;
        resF, resB, v1 := Turn(resF, resB, v);
        LaterTwice(v0, v, v1);
        v := v1;
        // no progress, and `(res_f & res_b) != 0`: both are -1
        if resF <= 0 && resB <= 0 && resF != 0 && resB != 0 {
          BothDone(v);
          break;
        }
        var res;
        res, v1 := Pause(v);
        LaterTwice(v0, v, v1);
        DoneStays(v, v1);
        v := v1;
        BrokenEnds(v);
        if res < 0 {
          break;
        }
      }
    }

    /** One round of both directions. */
    method Turn(f: int, b: int, ghost v: View) returns (resF: int, resB: int, ghost v': View)
      requires Shows(v) == true && -1 <= f <= 1 && -1 <= b <= 1 && (!v.broken ==> v.pcb)
      requires (f < 0 ==> DoneF(v) == true) && (b < 0 ==> DoneB(v) == true)
      modifies this, ring, ring.data, world
      ensures Shows(v') == true && Later(v, v') == true && -1 <= resF <= 1 && -1 <= resB <= 1 && world.pauses == old(world.pauses)
      ensures (resF < 0 ==> DoneF(v') == true) && (resB < 0 ==> DoneB(v') == true)
    {
      hide *;
      LaterSame(v);
      v', resF, resB := v, f, b;
      if resF >= 0 {
        ghost var (output, waits) := (world.output, world.waits);
        resF, v' := SpliceF(v);
        EndsF(v, v', output, waits, resF);
        DoneStays(v, v');
      }
      if resB >= 0 {
        ghost var v1 := v';
        ghost var input := world.input;
        resB, v' := SpliceB(v1);
        EndsB(v1, v', input, Room(v1), resB);
        DoneStays(v1, v');
        LaterTwice(v, v1, v');
      }
    }

    /** The second loop: until everything is acknowledged. */
    method Drain(ghost v0: View) returns (ghost v: View)
      requires Shows(v0) == true && (!v0.broken ==> Ended(v0) == true && v0.pcb)
      modifies this, ring, world`pauses, world`failed
      ensures Shows(v) == true && Later(v0, v) == true && (!v.broken ==> Ended(v) == true && v.inFlight == [])
    {
      LaterSame(v0);
      hide *;
      v := v0;
      SeeIs2(v);
      while pcb
        invariant Shows(v) == true && Later(v0, v) == true && (!v.broken ==> Ended(v) == true) && pcb == v.pcb && (!v.broken ==> v.pcb)
        decreases |world.pauses|
      {
        ShowsIs(v);
        SeeIs();
        InFlightSize();
        if ring.useSize == 0 {
          break;
        }
        ghost var v1;
        var res;
        res, v1 := Pause(v);
        LaterTwice(v0, v, v1);
        EndedStays(v, v1);
        SeeIs2(v1);
        v := v1;
        if res < 0 {
          break;
        }
      }
    }

    /**
     hev_socks5_session_tcp_splice, once the pcb is there.  In any case no byte is lost, repeated or
     changed; and unless something broke, the connection has acknowledged everything that the socket
     had to give, the socket has everything that the connection sent, and both were told of the end.
     In a fair world nothing breaks before the time is over.
     */
    method Splice(ghost v0: View) returns (ghost v: View)
      requires Shows(v0) == true && v0.pcb
      modifies this, ring, ring.data, world
      ensures Shows(v) == true && Whole(v) && Later(v0, v) == true && v.broken == world.failed
      ensures !v.broken ==> v.acked == v.handed == v.received == v0.received + Coming(old(world.input)) && v.toFd == v.fromTun
      ensures !v.broken ==> v.ended && v.eof && v.finPcb && v.finFd
      ensures world.fair && !v0.broken && v.broken ==> world.pauses == []
    {
      ShowsIs(v0);
      ghost var v1 := Run(v0);
      SeeIs2(v1);
      v := Drain(v1);
      ShowsIs(v);
      LaterTwice(v0, v1, v);
      SeeIs();
      CleanEnd(v);
      hide Shows;
    }

    /** `tcp_shutdown (pcb, 0, 1)` */
    method ShutPcb(ghost v: View) returns (ghost v': View)
      requires Shows(v) == true
      modifies this`finPcb
      ensures Shows(v') == true && Later(v, v') == true && v' == v.(finPcb := true)
    {
      finPcb := true;
      v' := v.(finPcb := true);
    }
  }

  /** While the task waits, nothing is read from the socket and nothing is written to it or handed over. */
  ghost predicate Meanwhile(a: View, b: View) {
    && b.received == a.received && b.unread == a.unread && b.handed == a.handed && b.toFd == a.toFd && b.ended == a.ended
    && b.finFd == a.finFd && b.finPcb == a.finPcb && Flatten(a.queue) <= Flatten(b.queue)
    && (a.broken == b.broken || !b.pcb)
  }

  // ---------------------------------------------------------------- what a turn comes to

  function Progress(a: Read): int {
    if a.Data? then 1 else if a == NotYet then 0 else -1
  }

  /** What a read changes. */
  ghost function Filled(v: View, input: seq<Read>, room: nat): View {
    var a := Answer(input, room);
    v.(coming := Coming(Remaining(input, room)), received := v.received + Bytes_(a), unread := v.unread + Bytes_(a),
       ended := v.ended || a == End, broken := v.broken || a == Broken)
  }

  /**
   A turn from the socket to the connection, by what the socket answers.  Unless something broke, all
   that is unread is handed over, and that is progress; with nothing to hand over, a socket that is
   not ready means to come again, and the end of the socket is told and is the end.
   */
  ghost predicate Receives(v: View, v': View, input: seq<Read>, room: nat, res: int) {
    var a := Answer(input, room);
    var unread := v.unread + Bytes_(a);
    && v'.received == v.received + Bytes_(a) && v'.ended == (v.ended || a == End) && -1 <= res <= 1
    && (!v'.broken ==>
         && v'.unread == [] && v'.finPcb == (v.finPcb || (a == End && unread == []))
         && res == if unread != [] then 1 else if a == End then -1 else 0)
  }

  /** What it takes to break: an error of the socket, the loss of the connection, or a refusal of the first two writes. */
  ghost predicate Breaks(v: View, v': View, a: Read, waits: seq<seq<Event>>, taken: seq<bool>) {
    var lost := waits != [] && Gone in waits[0];
    && (v.broken || a == Broken || lost ==> v'.broken)
    && (v'.broken ==> v.broken || a == Broken || lost || false in Front(taken, 2))
  }

  /**
   A turn from a queue that is not empty to the socket: it is offered the first 64 packets, and what it
   takes of them is sent.
   */
  ghost predicate Sends(v: View, v': View, output: seq<Write>, waits: seq<seq<Event>>, res: int) {
    var s := Taken(output, Offered(v.queue));
    && res == (if s < 0 then 0 else if s == 0 then -1 else 1)
    && (s <= 0 ==> v' == v.(broken := v.broken || s == 0))
    && (s > 0 ==>
         && s <= |Flatten(v.queue)| && v'.toFd == v.toFd + Flatten(v.queue)[..s]
         && v'.broken == (v.broken || (waits != [] && Gone in waits[0])))
  }

  ghost function Front<T>(s: seq<T>, k: nat): seq<T> {
    if k <= |s| then s[..k] else s
  }

  ghost function Behind<T>(s: seq<T>, k: nat): seq<T> {
    if k <= |s| then s[k..] else []
  }

  lemma FrontMore<T>(s: seq<T>, k: nat)
    ensures Rest(Behind(s, k)) == Behind(s, k + 1)
    ensures Behind(s, k) == [] ==> Front(s, k + 1) == Front(s, k)
    ensures Behind(s, k) != [] ==> Front(s, k + 1) == Front(s, k) + [Behind(s, k)[0]]
    ensures Front(s, 0) == [] && Behind(s, 0) == s
  {
    if k < |s| {
      assert s[..k + 1] == s[..k] + [s[k]];
    }
  }

  lemma FrontGrows<T>(s: seq<T>, n: nat, k: nat, x: T)
    requires n <= k && x in Front(s, n)
    ensures x in Front(s, k)
  {
    if k <= |s| {
      assert s[..k][..n] == s[..n];
    }
  }

  lemma FilledNone(v: View, input: seq<Read>)
    ensures Filled(v, input, 0) == v.(coming := Coming(input)) && Remaining(input, 0) == input
    ensures Progress(Answer(input, 0)) == 0
  {
    assert v.received + [] == v.received && v.unread + [] == v.unread;
  }

  /** Reading keeps the account. */
  lemma FilledIs(v: View, input: seq<Read>, room: nat)
    requires Whole(v) && v.coming == Coming(input) && (Answer(input, room) == Broken ==> !v.fair) && (!v.broken ==> v.pcb)
    ensures var v' := Filled(v, input, room);
      Later(v, v') == true && (Answer(input, room) == End ==> Coming(Remaining(input, room)) == [])
    ensures Whole(Filled(v, input, room)) == true
  {
    AnswerComes(input, room);
    var (x, rest) := (Bytes_(Answer(input, room)), Coming(Remaining(input, room)));
    Joined(v.received, x, rest);
    Joined(v.acked + v.inFlight, v.unread, x);
    assert v.ended ==> x == [];
    assert v.unread + [] == v.unread;
  }

  lemma FilledLater(v: View, input: seq<Read>, room: nat, v': View)
    requires v.coming == Coming(input) && (Answer(input, room) == Broken ==> !v.fair) && v' == Filled(v, input, room)
    requires Whole(v) == true && (!v.broken ==> v.pcb)
    ensures Later(v, v') == true
  {
    FilledIs(v, input, room);
  }

  lemma FilledBy(v: View, input: seq<Read>, room: nat)
    ensures var a := Answer(input, room);
      var v1 := v.(coming := Coming(Remaining(input, room)), ended := v.ended || a == End, broken := v.broken || a == Broken);
      Filled(v, input, room) == if a.Data? then v1.(received := v.received + a.bytes, unread := v.unread + a.bytes) else v1
  {
    assert v.received + [] == v.received && v.unread + [] == v.unread;
  }

  lemma WholeRead(v: View, input: seq<Read>, room: nat)
    requires Whole(v) && v.coming == Coming(input)
    ensures var a := Answer(input, room);
      Whole(v.(coming := Coming(Remaining(input, room)), ended := v.ended || a == End, broken := v.broken || a == Broken)) == true
  {
    AnswerComes(input, room);
  }

  lemma ProgressIs(input: seq<Read>, room: nat)
    ensures var a := Answer(input, room); Progress(a) == (if a.Data? then 1 else if a == NotYet then 0 else -1)
    ensures Answer(input, room).Data? ==> |Answer(input, room).bytes| <= room
  {
  }

  lemma WholeFails(v: View, v': View)
    requires Whole(v) == true && v' == v.(broken := v'.broken) && (v.broken ==> v'.broken) && (v'.broken && !v.broken ==> !v.fair)
    ensures Whole(v') == true && Later(v, v') == true
  {
  }

  lemma WholeLate(v: View, v': View)
    requires Whole(v) == true && v' == v.(broken := v'.broken, late := v'.late) && (v.broken ==> v'.broken) && (v.late ==> v'.late)
    requires v'.broken && !v.broken ==> v'.late
    ensures Whole(v') == true && Later(v, v') == true
  {
  }

  lemma SomethingOffered(v: View, k: nat)
    requires Whole(v) == true && v.queue != [] && k == if |v.queue| < MAX_IOV then |v.queue| else MAX_IOV
    ensures |Flatten(v.queue[..k])| == Offered(v.queue) > 0
  {
    assert v.queue[..k][0] == v.queue[0] && v.queue[0] in v.queue;
  }

  lemma SendsIs(v: View, v1: View, output: seq<Write>, waits: seq<seq<Event>>, s: int)
    requires s == Taken(output, Offered(v.queue)) && v1 == v.(broken := v.broken || s == 0)
    ensures s <= 0 ==> Sends(v, v1, output, waits, if s < 0 then 0 else -1) == true
    ensures s > 0 ==> v1 == v
  {
  }

  lemma OfferedLess(v: View, output: seq<Write>)
    ensures Taken(output, Offered(v.queue)) <= |Flatten(v.queue)|
  {
    var k := if |v.queue| < MAX_IOV then |v.queue| else MAX_IOV;
    FlattenTake(v.queue, k);
    PrefixSize(Flatten(v.queue[..k]), Flatten(v.queue));
  }

  lemma SendsMore(v: View, v': View, output: seq<Write>, waits: seq<seq<Event>>, s: nat)
    requires s > 0 && s == Taken(output, Offered(v.queue))
    requires s <= |Flatten(v.queue)| && v'.toFd == v.toFd + Flatten(v.queue)[..s]
    requires v'.broken == (v.broken || (waits != [] && Gone in waits[0]))
    ensures Sends(v, v', output, waits, 1) == true
  {
  }

  /** What the parts of a turn come to. */
  lemma ReceivesIs(v: View, v1: View, v2: View, v': View, input: seq<Read>, room: nat, waits: seq<seq<Event>>, taken: seq<bool>, n: nat, res: int)
    requires v1 == Filled(v, input, room) && Meanwhile(v1, v2) == true && (!v.broken ==> v.pcb) && (!v2.broken ==> v2.pcb)
    requires v2.broken == (v1.broken || (waits != [] && Gone in waits[0]))
    requires var (r, a) := (Progress(Answer(input, room)), Answer(input, room));
      if !v2.pcb then v' == v2 && res == -1
      else if v2.unread != [] then
        && n <= 2 && v' == v2.(broken := v2.broken || false in Front(taken, n), handed := v'.handed, inFlight := v'.inFlight, unread := [])
        && res == if false in Front(taken, n) then -1 else 1
      else v' == v2.(finPcb := v2.finPcb || r < 0) && res == r
    ensures Receives(v, v', input, room, res) == true && Breaks(v, v', Answer(input, room), waits, taken) == true
  {
    if false in Front(taken, n) && n <= 2 {
      FrontGrows(taken, n, 2, false);
    }
    if v2.pcb && v2.unread == [] {
      assert v.unread == [] && Bytes_(Answer(input, room)) == [];
      AnswerComes(input, room);
    }
  }

  lemma FewSpans(max: nat, from: nat, n: nat)
    requires from < max && n <= max
    ensures |Rings.Spans(max, from, n)| <= 2 && (Rings.Spans(max, from, n) == [] <==> n == 0)
  {
  }

  lemma MeanwhileNone(a: View)
    ensures Meanwhile(a, a) == true
  {
  }

  lemma MeanwhileTwice(a: View, b: View, c: View)
    requires Meanwhile(a, b) == true && Meanwhile(b, c) == true && Later(b, c) == true
    ensures Meanwhile(a, c) == true
  {
  }

  lemma MeanwhileQueue(a: View, b: View, s: nat)
    requires Meanwhile(a, b) == true && s <= |Flatten(a.queue)|
    ensures s <= |Flatten(b.queue)| && b.toFd == a.toFd && Flatten(b.queue)[..s] == Flatten(a.queue)[..s]
  {
  }

  lemma PrefixSize(a: Bytes, b: Bytes)
    requires a <= b
    ensures |a| <= |b|
  {
  }

  lemma EofIs(v: View)
    requires Whole(v)
    ensures Whole(v.(eof := true)) && Later(v, v.(eof := true)) && Meanwhile(v, v.(eof := true))
  {
  }

  lemma WholeSent(v: View, len: nat)
    requires Whole(v) && len <= |v.inFlight|
    ensures var v' := v.(acked := v.acked + v.inFlight[..len], inFlight := v.inFlight[len..]); Whole(v') && Later(v, v')
  {
    Moved(v.acked, v.inFlight, v.unread, len);
  }

  lemma WholeQueued(v: View, p: Bytes)
    requires Whole(v) && !v.eof && p != []
    ensures var v' := v.(queue := v.queue + [p], fromTun := v.fromTun + p);
      Whole(v') && Later(v, v') && Meanwhile(v, v') && Flatten(v'.queue) == Flatten(v.queue) + p
  {
    FlattenSum(v.queue, [p]);
    FlattenOne(p);
    Joined(v.toFd, Flatten(v.queue), p);
  }

  lemma WholeWritten(v: View, s: nat)
    requires Whole(v) == true && s <= |Flatten(v.queue)|
    ensures var v' := v.(toFd := v.toFd + Flatten(v.queue)[..s], queue := FreeHeader(v.queue, s)); Whole(v') == true && Later(v, v') == true
  {
    FreeHeaderIs(v.queue, s);
    FreeHeaderFull(v.queue, s);
    Moved(v.toFd, Flatten(v.queue), [], s);
    if v.queue == [] {
      assert FreeHeader(v.queue, s) == [];
    }
  }


  lemma MeanwhileEnded(a: View, b: View)
    requires Meanwhile(a, b) == true
    ensures a.ended == b.ended && a.unread == b.unread && a.received == b.received && a.finPcb == b.finPcb && (b.pcb ==> a.broken == b.broken)
  {
  }

  lemma WholeAccepted(v: View, x: Bytes)
    requires Whole(v)
    ensures var v' := v.(received := v.received + x, unread := v.unread + x); Whole(v')
  {
    Joined(v.acked + v.inFlight, v.unread, x);
  }

  lemma WholePassed(v: View, err: bool, given: Bytes)
    requires Whole(v) && (err ==> !v.fair) && (!err ==> given == v.unread)
    ensures var v' := v.(broken := v.broken || err, handed := v.handed + given, inFlight := v.inFlight + v.unread, unread := []);
      Whole(v') && Later(v, v') && v.unread[..|v.unread|] == v.unread && v.unread[|v.unread|..] == []
  {
    Moved2(v.acked, v.inFlight, v.unread);
  }


  // ---------------------------------------------------------------- how a session ends

  /** The direction to the socket is done, unless the session is broken. */
  ghost predicate DoneF(v: View) {
    !v.broken ==> v.eof && v.queue == [] && v.finFd
  }

  /** The direction to the connection is done but for acknowledgements, unless the session is broken. */
  ghost predicate DoneB(v: View) {
    !v.broken ==> v.ended && v.unread == [] && v.finPcb
  }

  ghost predicate Ended(v: View) {
    DoneF(v) && DoneB(v)
  }

  lemma EndsF(v: View, v': View, output: seq<Write>, waits: seq<seq<Event>>, res: int)
    requires v.queue == [] ==> res == (if v.eof then -1 else 0) && v' == v.(finFd := v.finFd || v.eof)
    requires v.queue != [] ==> Sends(v, v', output, waits, res) == true
    ensures -1 <= res <= 1 && (res < 0 ==> DoneF(v') == true)
  {
  }

  lemma EndsB(v: View, v': View, input: seq<Read>, room: nat, res: int)
    requires Receives(v, v', input, room, res) == true
    ensures -1 <= res <= 1 && (res < 0 ==> DoneB(v') == true)
  {
  }

  lemma DoneStays(v: View, v': View)
    requires Later(v, v') == true
    ensures (DoneF(v) == true ==> DoneF(v') == true) && (DoneB(v) == true ==> DoneB(v') == true)
  {
  }

  lemma BothDone(v: View)
    requires DoneF(v) == true && DoneB(v) == true
    ensures Ended(v) == true
  {
  }

  lemma BrokenEnds(v: View)
    ensures v.broken ==> Ended(v) == true
  {
  }

  lemma EndedStays(v: View, v': View)
    requires Later(v, v') == true && (!v.broken ==> Ended(v) == true)
    ensures !v'.broken ==> Ended(v') == true
  {
  }

  lemma CleanEnd(v: View)
    requires Whole(v) && (!v.broken ==> Ended(v) && v.inFlight == [])
    ensures !v.broken ==> v.acked == v.handed == v.received && v.toFd == v.fromTun && v.ended && v.eof && v.finPcb && v.finFd
  {
    assert v.acked + [] + [] == v.acked && v.acked + [] == v.acked;
    assert Flatten([]) == [] && v.toFd + [] == v.toFd;
  }

  lemma Moved2(a: Bytes, f: Bytes, u: Bytes)
    ensures a + f + u == a + (f + u) + [] && a + (f + u) == (a + f) + u && u[..|u|] == u && u[|u|..] == []
  {
  }

  lemma Joined(a: Bytes, q: Bytes, p: Bytes)
    ensures a + q + p == a + (q + p)
  {
  }

  lemma EmptySums(none: Bytes)
    requires none == []
    ensures none + none + none == none && none + none == none && Flatten([]) == none
  {
  }

  /** The first bytes in flight are acknowledged. */
  lemma Moved(a: Bytes, f: Bytes, u: Bytes, len: nat)
    requires len <= |f|
    ensures a + f == (a + f[..len]) + f[len..] && a + f + u == (a + f[..len]) + f[len..] + u
  {
  }

  lemma SpansHold(max: nat, from: nat, n: nat, i: nat)
    requires from < max && i < n <= max
    ensures exists v <- Rings.Spans(max, from, n) :: v.base <= Rings.Ahead(max, from, i) < v.base + v.len
  {
    var iov := Rings.Spans(max, from, n);
    if i < iov[0].len {
      assert iov[0] in iov;
    } else {
      assert iov[1] in iov;
    }
  }
}
