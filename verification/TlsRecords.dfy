/** Splitting a TLS record in place, and the records a receiver then reads. */
module TlsRecords {
  import opened ByteOrder
  import opened Sequences
  import opened Wire

  // ---------------------------------------------------------------- the record layer

  /** A record: type and version, the length it declares, and what is there of its payload. */
  datatype Record = Record(kind: Bytes, length: nat, payload: Bytes)

  /** Reading records, by section 5.1 of RFC 8446; the last one may be cut short. */
  function Records(b: Bytes): seq<Record>
    decreases |b|
  {
    if |b| < 5 then [] else
    var length := U16(b, 3);
    if |b| < 5 + length then [Record(b[..3], length, b[5..])]
    else [Record(b[..3], length, b[5..5 + length])] + Records(b[5 + length..])
  }

  function Header(kind: Bytes, length: nat): (h: Bytes)
    requires |kind| == 3 && length < 65536
    ensures |h| == 5
  {
    kind + BE16(length)
  }

  /** Complete records with these payloads. */
  function Frames(kind: Bytes, payloads: seq<Bytes>): (b: Bytes)
    requires |kind| == 3 && forall i :: 0 <= i < |payloads| ==> |payloads[i]| < 65536
  {
    if payloads == [] then [] else Frames(kind, payloads[..|payloads| - 1]) + Header(kind, |payloads[|payloads| - 1]|) + payloads[|payloads| - 1]
  }

  function Concat(payloads: seq<Bytes>): Bytes {
    if payloads == [] then [] else Concat(payloads[..|payloads| - 1]) + payloads[|payloads| - 1]
  }

  ghost function Full(kind: Bytes, payloads: seq<Bytes>): seq<Record> {
    seq(|payloads|, i requires 0 <= i < |payloads| => Record(kind, |payloads[i]|, payloads[i]))
  }

  lemma HeaderReads(kind: Bytes, length: nat, rest: Bytes)
    requires |kind| == 3 && length < 65536
    ensures var b := Header(kind, length) + rest; b[..3] == kind && U16(b, 3) == length && b[5..] == rest
  {
    var b := Header(kind, length) + rest;
    assert b[3] == BE16(length)[0] && b[4] == BE16(length)[1];
  }

  /** One complete record in front. */
  lemma RecordsCons(kind: Bytes, p: Bytes, rest: Bytes)
    requires |kind| == 3 && |p| < 65536
    ensures Records(Header(kind, |p|) + p + rest) == [Record(kind, |p|, p)] + Records(rest)
  {
    var b := Header(kind, |p|) + p + rest;
    HeaderReads(kind, |p|, p + rest);
    assert b == Header(kind, |p|) + (p + rest);
    assert b[5..5 + |p|] == p && b[5 + |p|..] == rest;
  }

  lemma FullLast(kind: Bytes, payloads: seq<Bytes>)
    requires payloads != []
    ensures var m := |payloads| - 1; Full(kind, payloads) == Full(kind, payloads[..m]) + [Record(kind, |payloads[m]|, payloads[m])]
  {
  }

  lemma Assoc3<T>(a: seq<T>, b: seq<T>, c: seq<T>, d: seq<T>)
    ensures a + b + c + d == a + (b + c + d)
  {
  }

  /** Complete records in front of others read back one by one. */
  lemma {:induction false} RecordsFrames(kind: Bytes, payloads: seq<Bytes>, rest: Bytes)
    requires |kind| == 3 && forall i :: 0 <= i < |payloads| ==> |payloads[i]| < 65536
    ensures Records(Frames(kind, payloads) + rest) == Full(kind, payloads) + Records(rest)
    decreases |payloads|
  {
    if payloads == [] {
      assert [] + rest == rest && [] + Records(rest) == Records(rest);
    } else {
      var m := |payloads| - 1;
      var (init, p) := (payloads[..m], payloads[m]);
      var mine := Header(kind, |p|) + p + rest;
      RecordsFrames(kind, init, mine);
      RecordsCons(kind, p, rest);
      FullLast(kind, payloads);
      hide Records, Full, Header;
      var (f, h) := (Frames(kind, init), Header(kind, |p|));
      assert Frames(kind, payloads) == f + h + p;
      Assoc3(f, h, p, rest);
      Assoc(Full(kind, init), [Record(kind, |p|, p)], Records(rest));
    }
  }

  /** The record at the end, cut short or just complete. */
  lemma RecordsLast(kind: Bytes, length: nat, p: Bytes)
    requires |kind| == 3 && |p| <= length < 65536
    ensures Records(Header(kind, length) + p) == [Record(kind, length, p)]
  {
    hide *;
    var b := Header(kind, length) + p;
    HeaderReads(kind, length, p);
    RecordsUnfold(b);
    if |b| == 5 + length {
      assert b[5 + length..] == [] && b[5..5 + length] == p;
      RecordsNone();
    }
  }

  lemma RecordsUnfold(b: Bytes)
    requires |b| >= 5
    ensures var length := U16(b, 3);
      Records(b) == if |b| < 5 + length then [Record(b[..3], length, b[5..])]
                    else [Record(b[..3], length, b[5..5 + length])] + Records(b[5 + length..])
  {
    hide U16;
  }

  lemma RecordsNone()
    ensures Records([]) == []
  {
  }

  // ---------------------------------------------------------------- part_tls

  /** The buffer after a split of the record at `base`: a second header after `pos` bytes of payload. */
  ghost function Split(b: Bytes, base: nat, n: nat, pos: nat): (r: Bytes)
    requires base + n + 5 <= |b| && pos + 5 <= n && pos <= U16(b, base + 3)
  {
    var length := U16(b, base + 3);
    b[..base] + Header(b[base..base + 3], pos) + b[base + 5..base + 5 + pos]
    + Header(b[base..base + 3], length - pos) + b[base + 5 + pos..base + n] + b[base + n + 5..]
  }

  /** What `part_tls` does: nothing without room or place, nothing but a strange answer when the record is shorter, and else a split. */
  ghost predicate Parted(b: Bytes, base: nat, bsize: int, n: int, pos: int, r: int, b': Bytes) {
    if n < 3 || bsize - n < 5 || pos < 0 || pos + 5 > n then r == 0 && b' == b
    else base + n + 5 <= |b| && if U16(b, base + 3) < pos then r == n && b' == b else r == 5 && IsSplit(b, b', base, n, pos)
  }

  /** `part_tls` on the record at `base`, of which `n` bytes are there. */
  method PartTls(b: array<byte>, base: nat, bsize: int, n: int, pos: int) returns (r: int)
    requires base + bsize <= b.Length && 0 <= n <= bsize
    modifies b
    ensures Parted(old(b[..]), base, bsize, n, pos, r, b[..]) == true
  {
    if n < 3 || bsize - n < 5 || pos < 0 || pos + 5 > n {
      return 0;
    }
    var rSz := U16([b[base + 3], b[base + 4]], 0);
    if rSz < pos {
      return n;
    }
    MakeSplit(b, base, n, pos, rSz);
    return 5;
  }

  method MakeSplit(b: array<byte>, base: nat, n: nat, pos: nat, rSz: nat)
    requires base + n + 5 <= b.Length && pos + 5 <= n && rSz == U16(b[..], base + 3) && pos <= rSz
    modifies b
    ensures IsSplit(old(b[..]), b[..], base, n, pos) == true
  {
    hide *;
    SplitIs(b[..], base, n, pos);
    MoveTail(b, base, base + 5 + pos, base + n);
    WriteLengths(b, base + 3, pos, base + 5 + pos + 3, rSz - pos);
  }

  /** Room for a second header, and its first three bytes. */
  method MoveTail(b: array<byte>, base: nat, cut: nat, end: nat)
    requires base + 3 <= cut <= end && end + 5 <= b.Length
    modifies b
    ensures b[..] == Put(Put(old(b[..]), cut + 5, old(b[..])[cut..end]), cut, Put(old(b[..]), cut + 5, old(b[..])[cut..end])[base..base + 3])
  {
    hide *;
    Shift(b, cut, end);
    CopyKind(b, base, cut);
  }

  method WriteLengths(b: array<byte>, at: nat, x: nat, at': nat, y: nat)
    requires at + 2 <= b.Length && at' + 2 <= b.Length && x < 65536 && y < 65536
    modifies b
    ensures b[..] == Put(Put(old(b[..]), at, BE16(x)), at', BE16(y))
  {
    hide *;
    WriteU16(b, at, x);
    WriteU16(b, at', y);
  }

  ghost predicate IsSplit(b: Bytes, r: Bytes, base: nat, n: nat, pos: nat) {
    base + n + 5 <= |b| && pos + 5 <= n && pos <= U16(b, base + 3) && r == Split(b, base, n, pos)
  }

  /** The buffer with `x` written at `off`. */
  ghost function Put(b: Bytes, off: nat, x: Bytes): (r: Bytes)
    requires off + |x| <= |b|
    ensures |r| == |b|
  {
    b[..off] + x + b[off + |x|..]
  }

  /** `memmove` of the bytes from `lo` to `hi`, five places up. */
  method Shift(b: array<byte>, lo: nat, hi: nat)
    requires lo <= hi && hi + 5 <= b.Length
    modifies b
    ensures b[..] == Put(old(b[..]), lo + 5, old(b[..])[lo..hi])
  {
    forall i | lo <= i < hi {
      b[i + 5] := b[i];
    }
  }

  /** The first three bytes of the header, copied. */
  method CopyKind(b: array<byte>, from: nat, to: nat)
    requires from + 3 <= to && to + 3 <= b.Length
    modifies b
    ensures b[..] == Put(old(b[..]), to, old(b[..])[from..from + 3])
  {
    b[to], b[to + 1], b[to + 2] := b[from], b[from + 1], b[from + 2];
  }

  method WriteU16(b: array<byte>, off: nat, x: nat)
    requires off + 2 <= b.Length && x < 65536
    modifies b
    ensures b[..] == Put(old(b[..]), off, BE16(x))
  {
    b[off], b[off + 1] := x / 256, x % 256;
  }

  /** The four writes make the split. */
  lemma SplitIs(b: Bytes, base: nat, n: nat, pos: nat)
    requires base + n + 5 <= |b| && pos + 5 <= n && pos <= U16(b, base + 3)
    ensures var (kind, cut, length) := (b[base..base + 3], base + 5 + pos, U16(b, base + 3));
      var b1 := Put(b, cut + 5, b[cut..base + n]);
      b1[base..base + 3] == kind
      && IsSplit(b, Put(Put(Put(b1, cut, kind), base + 3, BE16(pos)), cut + 3, BE16(length - pos)), base, n, pos) == true
  {
    var (kind, cut, length) := (b[base..base + 3], base + 5 + pos, U16(b, base + 3));
    var b1 := Put(b, cut + 5, b[cut..base + n]);
    assert b1[base..base + 3] == kind;
    hide U16, BE16;
    var b2 := Put(b1, cut, kind);
    var b3 := Put(b2, base + 3, BE16(pos));
    var b4 := Put(b3, cut + 3, BE16(length - pos));
    var head := b[..base] + kind + BE16(pos) + b[base + 5..cut];
    assert b2 == b[..cut] + kind + b1[cut + 3..];
    assert b3 == head + kind + b1[cut + 3..];
    assert b1[cut + 5..] == b[cut..base + n] + b[base + n + 5..];
    assert b4 == head + kind + BE16(length - pos) + b1[cut + 5..];
  }

  // ---------------------------------------------------------------- the loop over the split points

  /** How a position is meant: as it is, after the server name, after the host, or from the end. */
  datatype Flag = Plain | Sni | Host | End

  datatype Mode = None | Split_ | Disorder | Oob | Disoob | Fake

  datatype Part = Part(m: Mode, flag: Flag, pos: int)

  /** Complete records with the payloads `done`, and the last one, with `rest` of the `length` bytes it declares. */
  ghost predicate Framed(b: Bytes, n: nat, kind: Bytes, done: seq<Bytes>, length: nat, rest: Bytes) {
    && |kind| == 3 && (forall i :: 0 <= i < |done| ==> |done[i]| < 65536) && |rest| <= length < 65536 && n <= |b|
    && b[..n] == Frames(kind, done) + Header(kind, length) + rest
  }

  lemma {:induction false} FramesSize(kind: Bytes, payloads: seq<Bytes>)
    requires |kind| == 3 && forall i :: 0 <= i < |payloads| ==> |payloads[i]| < 65536
    ensures |Frames(kind, payloads)| == 5 * |payloads| + |Concat(payloads)|
  {
    if payloads != [] {
      FramesSize(kind, payloads[..|payloads| - 1]);
    }
  }

  lemma ConcatLast(done: seq<Bytes>, p: Bytes)
    ensures Concat(done + [p]) == Concat(done) + p
  {
    assert (done + [p])[..|done|] == done;
  }

  lemma FramesLast(kind: Bytes, done: seq<Bytes>, p: Bytes)
    requires |kind| == 3 && (forall i :: 0 <= i < |done| ==> |done[i]| < 65536) && |p| < 65536
    ensures Frames(kind, done + [p]) == Frames(kind, done) + Header(kind, |p|) + p
  {
    assert (done + [p])[..|done|] == done;
  }

  /** Where the last record begins. */
  lemma FramedAt(b: Bytes, n: nat, kind: Bytes, done: seq<Bytes>, length: nat, rest: Bytes)
    requires Framed(b, n, kind, done, length, rest)
    ensures var lp := |Frames(kind, done)|;
      && lp == 5 * |done| + |Concat(done)| && n == lp + 5 + |rest| && lp + 5 <= |b|
      && b[..lp] == Frames(kind, done) && b[lp..lp + 3] == kind && U16(b, lp + 3) == length && b[lp + 5..n] == rest
  {
    FramesSize(kind, done);
    var (f, lp) := (Frames(kind, done), |Frames(kind, done)|);
    HeaderReads(kind, length, rest);
    var tail := Header(kind, length) + rest;
    assert b[..n] == f + tail;
    assert b[..lp] == b[..n][..lp] == f;
    assert b[lp..n] == tail;
    hide Frames, Header;
    assert b[lp..lp + 3] == tail[..3] && b[lp + 5..n] == tail[5..];
    assert b[lp + 3] == tail[3] && b[lp + 4] == tail[4];
  }

  /** Splitting the last record. */
  lemma SplitFrames(b: Bytes, n: nat, lp: nat, size: nat, kind: Bytes, done: seq<Bytes>, length: nat, rest: Bytes, r: Bytes, pos: nat)
    requires Framed(b, n, kind, done, length, rest) && pos <= |rest|
    requires lp == |Frames(kind, done)| && n == lp + size && IsSplit(b, r, lp, size, pos)
    ensures Framed(r, n + 5, kind, done + [rest[..pos]], length - pos, rest[pos..]) == true
  {
    FramedAt(b, n, kind, done, length, rest);
    FramesLast(kind, done, rest[..pos]);
    var (h1, h2) := (Header(kind, pos), Header(kind, length - pos));
    assert r == b[..lp] + h1 + b[lp + 5..lp + 5 + pos] + h2 + b[lp + 5 + pos..n] + b[n + 5..];
    hide Frames, Header, U16, BE16, Split, IsSplit;
    SplitBytes(b, lp, n, pos, h1, h2, rest, r);
  }

  lemma SplitBytes(b: Bytes, lp: nat, n: nat, pos: nat, h1: Bytes, h2: Bytes, rest: Bytes, r: Bytes)
    requires lp + 5 <= n <= |b| && b[lp + 5..n] == rest && pos <= |rest| && |h1| == |h2| == 5 && n + 5 <= |b|
    requires r == b[..lp] + h1 + b[lp + 5..lp + 5 + pos] + h2 + b[lp + 5 + pos..n] + b[n + 5..]
    ensures |r| >= n + 5 && r[..n + 5] == b[..lp] + h1 + rest[..pos] + h2 + rest[pos..]
  {
    assert b[lp + 5..lp + 5 + pos] == rest[..pos] && b[lp + 5 + pos..n] == rest[pos..];
  }

  /** The payload offset that split point `i` stands for, when `n` bytes were there at first. */
  function CutAt(part: Part, i: nat, n: int, host: int): int {
    if part.flag == Sni then part.pos + host - 5
    else if part.pos + 5 * i < 0 then part.pos + n + 5 * i
    else part.pos
  }

  /** The splits made so far are those asked for. */
  ghost predicate AsAsked(parts: seq<Part>, n: int, host: int, done: seq<Bytes>) {
    |done| <= |parts| && forall i :: 0 <= i < |done| ==> |Concat(done[..i + 1])| == CutAt(parts[i], i, n, host)
  }

  lemma AsAskedMore(parts: seq<Part>, n: int, host: int, done: seq<Bytes>, p: Bytes)
    requires AsAsked(parts, n, host, done) && |done| < |parts| && |Concat(done)| + |p| == CutAt(parts[|done|], |done|, n, host)
    ensures AsAsked(parts, n, host, done + [p])
  {
    ConcatLast(done, p);
    var more := done + [p];
    hide Concat, CutAt;
    forall i | 0 <= i < |more|
      ensures |Concat(more[..i + 1])| == CutAt(parts[i], i, n, host)
    {
      assert more[..i + 1] == if i < |done| then done[..i + 1] else more;
    }
  }

  /** Why a split point is refused: it lies before the last one, after the end, or there is no room. */
  ghost predicate Refused(part: Part, i: nat, n: int, host: int, bfsize: int, done: seq<Bytes>, rest: Bytes) {
    var cut := CutAt(part, i, n, host);
    cut < |Concat(done)| || cut > |Concat(done)| + |rest| || bfsize < n + 5 * i + 5
  }

  /**
   The tlsrec loop.  The payload is cut where the parts say, up to the first one refused,
   into records of the same type and version; five bytes are added for each cut.
   */
  method TlsRec(b: array<byte>, bfsize: nat, n0: nat, parts: seq<Part>, host: int)
    returns (n: nat, ghost kind: Bytes, ghost done: seq<Bytes>, ghost length: nat, ghost rest: Bytes)
    requires 5 <= n0 <= bfsize <= b.Length && n0 - 5 <= U16(b[..], 3)
    modifies b
    ensures n == n0 + 5 * |done| <= bfsize
    ensures Framed(b[..], n, kind, done, length, rest) == true && kind == old(b[..])[..3]
    ensures Concat(done) + rest == old(b[..])[5..n0] && |Concat(done)| + length == U16(old(b[..]), 3)
    ensures AsAsked(parts, n0, host, done) == true
    ensures |done| < |parts| ==> Refused(parts[|done|], |done|, n0, host, bfsize, done, rest) == true
  {
    ghost var was := b[..];
    n, kind, done, length, rest := n0, was[..3], [], U16(was, 3), was[5..n0];
    StartFramed(was, n0);
    assert AsAsked(parts, n0, host, done);
    hide *;
    var lp: int := 0;
    var i := 0;
    while i < |parts|
      invariant i == |done| <= |parts| && n == n0 + 5 * i <= bfsize <= b.Length
      invariant lp == 5 * i + |Concat(done)|
      invariant Framed(b[..], n, kind, done, length, rest) == true
      invariant Concat(done) + rest == was[5..n0] && |Concat(done)| + length == U16(was, 3)
      invariant AsAsked(parts, n0, host, done) == true
    {
      var part := parts[i];
      var pos := part.pos + i * 5;
      if part.flag == Sni {
        pos := pos + (host - 5);
      } else if pos < 0 {
        pos := pos + n;
      }
      CutIs(part, i, n0, host, bfsize, done, rest, pos);
      if pos < lp {
        return;
      }
      FramedSize(b[..], n, kind, done, length, rest);
      var p := pos - lp;
      var ok := Cut(b, bfsize - lp, lp, n - lp, p, n, kind, done, length, rest);
      if !ok {
        return;
      }
      AsAskedMore(parts, n0, host, done, rest[..p]);
      ConcatLast(done, rest[..p]);
      CutRest(Concat(done), rest, p);
      done, length, rest := done + [rest[..p]], length - p, rest[p..];
      n := n + 5;
      lp := pos + 5;
      i := i + 1;
    }
  }

  lemma FramedSize(b: Bytes, n: nat, kind: Bytes, done: seq<Bytes>, length: nat, rest: Bytes)
    requires Framed(b, n, kind, done, length, rest) == true
    ensures |Frames(kind, done)| == 5 * |done| + |Concat(done)| && n == |Frames(kind, done)| + 5 + |rest|
  {
    FramedAt(b, n, kind, done, length, rest);
  }

  lemma CutIs(part: Part, i: nat, n: int, host: int, bfsize: int, done: seq<Bytes>, rest: Bytes, pos: int)
    requires pos == part.pos + i * 5 + (if part.flag == Sni then host - 5 else if part.pos + i * 5 < 0 then n + 5 * i else 0)
    ensures pos == CutAt(part, i, n, host) + 5 * i
    ensures pos < 5 * i + |Concat(done)| || bfsize < n + 5 * i + 5 || pos - (5 * i + |Concat(done)|) > |rest|
      ==> Refused(part, i, n, host, bfsize, done, rest) == true
  {
  }

  /** One split, if there is room and the point lies in the last record. */
  method Cut(b: array<byte>, bsize: nat, lp: nat, size: nat, p: nat, ghost n: nat, ghost kind: Bytes, ghost done: seq<Bytes>,
             ghost length: nat, ghost rest: Bytes) returns (ok: bool)
    requires Framed(b[..], n, kind, done, length, rest) == true && lp == |Frames(kind, done)| && n == lp + size && size == 5 + |rest|
    requires size <= bsize && lp + bsize <= b.Length && |rest| <= length
    modifies b
    ensures ok <==> bsize >= size + 5 && p <= |rest|
    ensures ok ==> Framed(b[..], n + 5, kind, done + [rest[..p]], length - p, rest[p..]) == true
    ensures !ok ==> b[..] == old(b[..])
  {
    ghost var was := b[..];
    FramedAt(was, n, kind, done, length, rest);
    hide *;
    var r := PartTls(b, lp, bsize, size, p);
    ok := r != 0;
    PartedIs(was, lp, bsize, size, p, r, b[..]);
    if ok {
      SplitFrames(was, n, lp, size, kind, done, length, rest, b[..], p);
    }
  }

  lemma PartedIs(b: Bytes, base: nat, bsize: int, n: int, pos: int, r: int, b': Bytes)
    requires Parted(b, base, bsize, n, pos, r, b') && base + 5 <= |b| && n >= 5 && 0 <= pos && (pos + 5 <= n ==> pos <= U16(b, base + 3))
    ensures r == 0 <==> bsize - n < 5 || pos + 5 > n
    ensures r == 0 ==> b' == b
    ensures r != 0 ==> IsSplit(b, b', base, n, pos) == true
  {
    hide IsSplit;
  }

  lemma CutRest(a: Bytes, rest: Bytes, p: nat)
    requires p <= |rest|
    ensures a + rest[..p] + rest[p..] == a + rest
  {
    assert rest[..p] + rest[p..] == rest;
  }

  lemma StartFramed(b: Bytes, n: nat)
    requires 5 <= n <= |b| && n - 5 <= U16(b, 3)
    ensures Framed(b, n, b[..3], [], U16(b, 3), b[5..n]) == true && Concat([]) + b[5..n] == b[5..n]
  {
    assert Header(b[..3], U16(b, 3)) == b[..5];
    assert Frames(b[..3], []) == [];
    assert b[..n] == [] + b[..5] + b[5..n];
  }

  /** A receiver reads the buffer as these records. */
  lemma FramedReads(b: Bytes, n: nat, kind: Bytes, done: seq<Bytes>, length: nat, rest: Bytes)
    requires Framed(b, n, kind, done, length, rest)
    ensures Records(b[..n]) == Full(kind, done) + [Record(kind, length, rest)]
  {
    var tail := Header(kind, length) + rest;
    assert b[..n] == Frames(kind, done) + tail;
    RecordsFrames(kind, done, tail);
    RecordsLast(kind, length, rest);
  }
}
