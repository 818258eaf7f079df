/** Answering a DNS query from the mapped-DNS cache. */
module DnsReply {
  import opened ByteOrder
  import opened DnsCache
  import opened DnsMessage
  import opened MappedDns
  import opened Options
  import opened RBShape
  import opened Sequences
  import opened Wire
  import opened Words

  // ---------------------------------------------------------------- scanning the request

  /** The root byte that ends the name at `off`; none when the name leaves the message. */
  function SkipName(b: Bytes, off: nat, qlen: nat): (r: Option<nat>)
    requires off <= qlen <= |b| && off < |b|
    ensures r.Some? ==> off <= r.value <= qlen && r.value < |b| && b[r.value] == 0
    decreases |b| - off
  {
    if b[off] == 0 then Some(off) else
    var next := off + 1 + b[off];
    if next >= qlen then None else SkipName(b, next, qlen)
  }

  /** The request with the length bytes of that name turned into dots. */
  function Dots(b: Bytes, off: nat, qlen: nat): (r: Bytes)
    requires off <= qlen <= |b| && off < |b|
    ensures |r| == |b|
    decreases |b| - off
  {
    if b[off] == 0 then b else
    var next := off + 1 + b[off];
    if next >= qlen then b else Dots(b[off := 46], next, qlen)
  }

  /** The C string at `i`. */
  function CString(b: Bytes, i: nat): Bytes
    decreases |b| - i
  {
    if i >= |b| || b[i] == 0 then [] else [b[i]] + CString(b, i + 1)
  }

  /** A question: where it starts, its name as the cache sees it, and whether it asks for an address. */
  datatype Ask = Ask(start: nat, name: Bytes, a: bool)

  datatype Scanned = Scanned(asks: seq<Ask>, ok: bool, end: nat)

  function Scan(b: Bytes, off: nat, n: nat, qlen: nat): (s: Scanned)
    requires off <= qlen <= |b|
    ensures s.ok ==> off <= s.end <= qlen && |s.asks| == n
    ensures |s.asks| <= n
    decreases n
  {
    if n == 0 then Scanned([], true, off) else
    if off == |b| then Scanned([], false, off) else
    match SkipName(b, off, qlen)
    case None => Scanned([], false, off)
    case Some(z) =>
      if z + 4 >= qlen then Scanned([], false, off) else
      var b' := Dots(b, off, qlen);
      var rest := Scan(b', z + 5, n - 1, qlen);
      Scanned([Ask(off, CString(b', off + 1), U16(b', z + 1) == 1 && U16(b', z + 3) == 1)] + rest.asks, rest.ok, rest.end)
  }

  /** The scan looks at position `qlen`, behind the message: there are questions to come, and the last one ended there. */
  ghost predicate Overreads(b: Bytes, off: nat, n: nat, qlen: nat)
    requires off <= qlen <= |b|
    decreases n
  {
    n > 0 && (off == qlen ||
      match SkipName(b, off, qlen)
      case None => false
      case Some(z) => z + 4 < qlen && Overreads(Dots(b, off, qlen), z + 5, n - 1, qlen))
  }

  /** The code does no harm if there is memory behind the message, or if it does not look there. */
  ghost predicate Inside(q: Bytes, qlen: nat, n: nat) {
    12 <= qlen <= |q| && (qlen == |q| ==> !Overreads(q, 12, n, qlen))
  }

  /** The first `k` questions are complete, and the message ends with them. */
  ghost predicate Fills(b: Bytes, off: nat, k: nat, qlen: nat)
    requires off <= qlen <= |b|
  {
    Scan(b, off, k, qlen).ok && Scan(b, off, k, qlen).end == qlen
  }

  /** The code looks behind the message exactly when some of the questions fill it, and they are not all. */
  lemma {:induction false} OverreadsWhen(b: Bytes, off: nat, n: nat, qlen: nat)
    requires off <= qlen <= |b|
    ensures Overreads(b, off, n, qlen) <==> exists k: nat :: k < n && Fills(b, off, k, qlen)
    decreases n
  {
    if n > 0 {
      if off == qlen {
        assert Fills(b, off, 0, qlen);
      } else {
        forall k: nat
          ensures Fills(b, off, k, qlen) ==> k > 0
        {
        }
        OverreadsNext(b, off, n, qlen);
      }
    }
  }

  lemma {:induction false} OverreadsNext(b: Bytes, off: nat, n: nat, qlen: nat)
    requires n > 0 && off < qlen <= |b| && forall k: nat :: Fills(b, off, k, qlen) ==> k > 0
    ensures Overreads(b, off, n, qlen) <==> exists k: nat :: k < n && Fills(b, off, k, qlen)
    decreases n, 0
  {
    var s := SkipName(b, off, qlen);
    hide SkipName, Dots, Fills;
    forall k: nat | k > 0
      ensures Fills(b, off, k, qlen) <==> s.Some? && s.value + 4 < qlen && Fills(Dots(b, off, qlen), s.value + 5, k - 1, qlen)
    {
      FillsNext(b, off, k, qlen);
    }
    if s.Some? && s.value + 4 < qlen {
      var (c, at) := (Dots(b, off, qlen), s.value + 5);
      OverreadsWhen(c, at, n - 1, qlen);
      if k: nat :| k < n - 1 && Fills(c, at, k, qlen) {
        assert Fills(b, off, k + 1, qlen);
      }
    }
  }

  lemma FillsNext(b: Bytes, off: nat, k: nat, qlen: nat)
    requires k > 0 && off < qlen <= |b|
    ensures var s := SkipName(b, off, qlen);
      Fills(b, off, k, qlen) <==> s.Some? && s.value + 4 < qlen && Fills(Dots(b, off, qlen), s.value + 5, k - 1, qlen)
  {
    hide SkipName, Dots, CString, U16;
  }

  /** A request of a header alone that promises a question: position 12 is read, and there is none. */
  lemma HeaderAlone()
    ensures var q: Bytes := [0, 0, 1, 0, 0, 1, 0, 0, 0, 0, 0, 0]; U16(q, 4) == 1 && Overreads(q, 12, 1, 12) && !Inside(q, 12, 1)
  {
  }

  /** The questions that get an answer. */
  ghost function Wanted(asks: seq<Ask>): (w: seq<Ask>)
    ensures |w| <= |asks|
  {
    if asks == [] then [] else
    var w := Wanted(asks[..|asks| - 1]);
    if asks[|asks| - 1].a then w + [asks[|asks| - 1]] else w
  }

  ghost function AskNames(asks: seq<Ask>): seq<Bytes> {
    seq(|asks|, i requires 0 <= i < |asks| => asks[i].name)
  }

  /** The finds of a request, in order. */
  ghost function FindAll(c: Cache, names: seq<Bytes>, max: nat): (r: (Cache, seq<nat>))
    requires Consistent(c, max) && max >= 1
    ensures Consistent(r.0, max) && |r.1| == |names| && forall i :: 0 <= i < |names| ==> r.1[i] < max
  {
    if names == [] then (c, []) else
    var (c1, ids) := FindAll(c, names[..|names| - 1], max);
    var (c2, i) := DnsCache.Find(c1, names[|names| - 1], max);
    (c2, ids + [i])
  }

  // ---------------------------------------------------------------- the reply

  /** One answer: a pointer to the question, type A, class IN, a second to live, and the address. */
  function Answer(start: nat, ip: Word): (r: Bytes)
    ensures |r| == 16
  {
    [0xc0, start % 256] + BE16(1) + BE16(1) + BE32(1) + BE16(4) + BE32(ip)
  }

  /** A pointer has 14 bits, by section 4.1.4 of RFC 1035; the one that is written has eight of them, and leads to the question up to 255. */
  lemma PointerReaches(start: nat, ip: Word)
    ensures var b := Answer(start, ip); b[0] >= 192 && ((b[0] - 192) as int * 256 + b[1] as int == start <==> start < 256)
  {
  }

  ghost function Answers(net: Word, w: seq<Ask>, ids: seq<nat>): (r: Bytes)
    requires |w| == |ids| && forall i :: 0 <= i < |ids| ==> ids[i] < WORD
    ensures |r| == 16 * |w|
  {
    if w == [] then [] else
    Answers(net, w[..|w| - 1], ids[..|w| - 1]) + Answer(w[|w| - 1].start, OrWord(net, ids[|w| - 1]))
  }

  /** Response, with recursion available as desired. */
  function Flags(fl: nat): (r: nat)
    requires fl < 65536
    ensures 0x8000 <= r < 65536
  {
    FlagsBelow(fl);
    Or(Or(fl, 0x8000), And(fl, 0x100) / 2)
  }

  /**
   By section 4.1.1 of RFC 1035: bit 15 says response, bit 8 that recursion was desired and bit 7 that
   it is available.  The other bits, the response code among them, are as they were.
   */
  ghost predicate ReplyFlags(asked: nat, told: nat) {
    && told < 65536 && Bit(told, 15) && (Bit(told, 7) <==> Bit(asked, 7) || Bit(asked, 8))
    && forall k: nat :: k < 16 && k != 15 && k != 7 ==> (Bit(told, k) <==> Bit(asked, k))
  }

  lemma BitNext(x: nat, k: nat)
    ensures Bit(x, k + 1) == Bit(x / 2, k)
  {
  }

  lemma FlagsAnswer(fl: nat)
    requires fl < 65536
    ensures ReplyFlags(fl, Flags(fl)) == true
  {
    FlagsBelow(fl);
    assert Power(8) == 0x100;
    assert Power(15) == 0x8000;
    var (a, x) := (Or(fl, 0x8000), And(fl, 0x100));
    hide Or, And, Bit, Power;
    forall k: nat | k < 16
      ensures Bit(Flags(fl), k) <==> Bit(fl, k) || k == 15 || (k == 7 && Bit(fl, 8))
    {
      BitByBit(fl, 0x8000, k);
      BitPower(15, k);
      BitByBit(fl, 0x100, k + 1);
      BitPower(8, k + 1);
      assert Bit(x, k + 1) == Bit(x / 2, k) by { BitNext(x, k); }
      BitByBit(a, x / 2, k);
    }
  }

  lemma FlagsBelow(fl: nat)
    requires fl < 65536
    ensures 0x8000 <= Or(Or(fl, 0x8000), And(fl, 0x100) / 2) < 65536
  {
    assert Power(16) == 65536 by { assert Power(8) == 256; }
    OrBelow(fl, 0x8000, 16);
    OrBelow(Or(fl, 0x8000), And(fl, 0x100) / 2, 16);
    OrAbove(fl, 0x8000);
    OrAbove(And(fl, 0x100) / 2, Or(fl, 0x8000));
    OrCommutes(And(fl, 0x100) / 2, Or(fl, 0x8000));
  }

  lemma {:induction false} OrAbove(a: nat, b: nat)
    ensures Or(a, b) >= b
  {
    if a != 0 && b != 0 {
      OrAbove(a / 2, b / 2);
    }
  }

  lemma {:induction false} OrCommutes(a: nat, b: nat)
    ensures Or(a, b) == Or(b, a)
  {
    if a != 0 && b != 0 {
      OrCommutes(a / 2, b / 2);
    }
  }

  /** A response made of the message `p`. */
  function Respond(p: Bytes, n: nat): Bytes
    requires 12 <= |p| && n < 65536
  {
    p[..2] + BE16(Flags(U16(p, 2))) + p[4..6] + BE16(n) + [0, 0, 0, 0] + p[12..]
  }

  /** The header and questions of the request, marked as a response, and `n` answers. */
  ghost function Reply(q: Bytes, end: nat, n: nat, answers: Bytes): Bytes
    requires 12 <= end <= |q| && n < 65536
  {
    Respond(q[..end] + answers, n)
  }

  // ---------------------------------------------------------------- what the scan finds in a well-formed request

  /** The labels of a name joined by dots. */
  function Dotted(labels: seq<Bytes>): Bytes {
    if labels == [] then [] else labels[0] + if |labels| == 1 then [] else [46] + Dotted(labels[1..])
  }

  ghost predicate NoNul(labels: seq<Bytes>) {
    forall i :: 0 <= i < |labels| ==> 0 !in labels[i]
  }

  lemma {:induction false} CStringRun(b: Bytes, i: nat, j: nat)
    requires i <= j <= |b| && forall k :: i <= k < j ==> b[k] != 0
    ensures CString(b, i) == b[i..j] + CString(b, j)
    decreases j - i
  {
    if i < j {
      CStringRun(b, i + 1, j);
      assert b[i..j] == [b[i]] + b[i + 1..j];
    } else {
      assert b[i..j] == [];
    }
  }

  lemma {:induction false} DotsBefore(b: Bytes, off: nat, qlen: nat)
    requires off <= qlen <= |b| && off < |b|
    ensures forall k :: 0 <= k < off ==> Dots(b, off, qlen)[k] == b[k]
    decreases |b| - off
  {
    if b[off] != 0 && off + 1 + b[off] < qlen {
      DotsBefore(b[off := 46], off + 1 + b[off], qlen);
    }
  }

  lemma {:induction false} SkipFrom(b: Bytes, c: Bytes, off: nat, qlen: nat)
    requires off < |b| == |c| && off <= qlen <= |b| && forall k :: off <= k < |b| ==> b[k] == c[k]
    ensures SkipName(b, off, qlen) == SkipName(c, off, qlen)
    decreases |b| - off
  {
    if b[off] != 0 && off + 1 + b[off] < qlen {
      SkipFrom(b, c, off + 1 + b[off], qlen);
    }
  }

  /** The bytes from the end of the name on are left alone. */
  lemma {:induction false} DotsAfter(b: Bytes, off: nat, qlen: nat)
    requires off <= qlen <= |b| && off < |b| && SkipName(b, off, qlen).Some?
    ensures forall k :: SkipName(b, off, qlen).value <= k < |b| ==> Dots(b, off, qlen)[k] == b[k]
    decreases |b| - off
  {
    if b[off] != 0 {
      var next := off + 1 + b[off];
      SkipFrom(b, b[off := 46], next, qlen);
      DotsAfter(b[off := 46], next, qlen);
    }
  }

  /** A name written out in full ends where the scan says, and the cache sees it dotted. */
  lemma {:induction false} LabelsScanned(b: Bytes, off: nat, qlen: nat)
    requires off <= qlen <= |b| && off < |b| && Labels(b[..qlen], off).Some?
    ensures SkipName(b, off, qlen).Some? && SkipName(b, off, qlen).value + 1 == Labels(b[..qlen], off).value.1
    ensures var labels := Labels(b[..qlen], off).value.0;
      labels != [] && NoNul(labels) ==> b[off] != 0 && CString(Dots(b, off, qlen), off + 1) == Dotted(labels)
    decreases |b| - off
  {
    var q := b[..qlen];
    if q[off] != 0 {
      var next := off + 1 + b[off];
      var c := b[off := 46];
      assert c[..qlen] == q[off := 46];
      LabelsFrom(q, c[..qlen], next);
      SkipFrom(b, c, next, qlen);
      LabelsScanned(c, next, qlen);
      var (labels, rest) := (Labels(q, off).value.0, Labels(q, next).value.0);
      if NoNul(labels) {
        assert labels == [q[off + 1..next]] + rest && q[off + 1..next] == b[off + 1..next];
        assert NoNul(rest) by { assert forall i :: 0 <= i < |rest| ==> rest[i] == labels[i + 1]; }
        DottedStep(b, c, off, next, qlen, labels, rest);
      }
    }
  }

  lemma DottedStep(b: Bytes, c: Bytes, off: nat, next: nat, qlen: nat, labels: seq<Bytes>, rest: seq<Bytes>)
    requires off < next < qlen <= |b| && b[off] != 0 && next == off + 1 + b[off] && c == b[off := 46]
    requires labels == [b[off + 1..next]] + rest && 0 !in labels[0]
    requires rest == [] <==> c[next] == 0
    requires rest != [] ==> CString(Dots(c, next, qlen), next + 1) == Dotted(rest)
    requires SkipName(c, next, qlen).Some?
    ensures CString(Dots(b, off, qlen), off + 1) == Dotted(labels)
  {
    hide *;
    DotsStep(b, off, qlen);
    DotsStep(c, next, qlen);
    DotsBefore(c, next, qlen);
    if rest != [] {
      NextDot(c, next, qlen);
    }
    var d := Dots(b, off, qlen);
    SameSlice(b, d, off + 1, next);
    DottedRun(d, off + 1, next, labels, rest);
  }

  lemma DotsStep(b: Bytes, off: nat, qlen: nat)
    requires off <= qlen <= |b| && off < |b|
    ensures Dots(b, off, qlen) == if b[off] == 0 || off + 1 + b[off] >= qlen then b else Dots(b[off := 46], off + 1 + b[off], qlen)
  {
  }

  lemma SameSlice(b: Bytes, d: Bytes, i: nat, j: nat)
    requires i <= j <= |b| && j <= |d| && forall k :: i <= k < j ==> d[k] == b[k]
    ensures d[i..j] == b[i..j]
  {
  }

  lemma DottedRun(d: Bytes, i: nat, next: nat, labels: seq<Bytes>, rest: seq<Bytes>)
    requires i <= next < |d| && labels == [d[i..next]] + rest && 0 !in labels[0]
    requires rest == [] ==> d[next] == 0
    requires rest != [] ==> d[next] == 46 && CString(d, next + 1) == Dotted(rest)
    ensures CString(d, i) == Dotted(labels)
  {
    forall k | i <= k < next
      ensures d[k] != 0
    {
      assert d[k] == labels[0][k - i];
    }
    CStringRun(d, i, next);
    if rest != [] {
      assert CString(d, next) == [46] + CString(d, next + 1);
      assert labels[1..] == rest;
    }
  }

  lemma NextDot(c: Bytes, off: nat, qlen: nat)
    requires off <= qlen <= |c| && off < |c| && c[off] != 0 && SkipName(c, off, qlen).Some?
    ensures Dots(c, off, qlen)[off] == 46
  {
    DotsBefore(c[off := 46], off + 1 + c[off], qlen);
  }

  /** What `Ask` says about a question of the request. */
  ghost predicate Matches(a: Ask, q: Question, start: nat) {
    a.start == start && (a.a <==> q.qtype == 1 && q.qclass == 1) && (a.a && NoNul(q.name) ==> a.name == Dotted(q.name))
  }

  lemma AskMatches(b: Bytes, off: nat, qlen: nat)
    requires off <= qlen <= |b| && off < |b| && Labels(b[..qlen], off).Some? && Labels(b[..qlen], off).value.1 + 4 <= qlen
    ensures var (labels, at) := Labels(b[..qlen], off).value;
      var (q, c) := (b[..qlen], Dots(b, off, qlen));
      SkipName(b, off, qlen).Some? && SkipName(b, off, qlen).value + 1 == at
      && Matches(Ask(off, CString(c, off + 1), U16(c, at) == 1 && U16(c, at + 2) == 1),
                 Question(labels, U16(q, at), U16(q, at + 2)), off)
  {
    var (labels, at) := Labels(b[..qlen], off).value;
    LabelsScanned(b, off, qlen);
    DotsAfter(b, off, qlen);
    if labels == [] {
      assert b[..qlen][off] == 0 && at == off + 1;
    }
  }

  ghost predicate AllMatch(asks: seq<Ask>, qs: seq<Question>, starts: seq<nat>) {
    |asks| == |qs| == |starts| && forall i :: 0 <= i < |asks| ==> Matches(asks[i], qs[i], starts[i])
  }

  lemma AllMatchStep(a: Ask, q: Question, start: nat, asks: seq<Ask>, qs: seq<Question>, starts: seq<nat>)
    requires Matches(a, q, start) == true && AllMatch(asks, qs, starts) == true
    ensures AllMatch([a] + asks, [q] + qs, [start] + starts) == true
  {
    hide Matches;
  }

  /** The scan of a well-formed request finds its questions. */
  lemma {:induction false} ScanFinds(b: Bytes, off: nat, n: nat, qlen: nat)
    requires off <= qlen <= |b| && Asked(b[..qlen], off, n).Some?
    ensures var (s, asked) := (Scan(b, off, n, qlen), Asked(b[..qlen], off, n).value);
      s.ok && s.end == asked.2 && AllMatch(s.asks, asked.0, asked.1) == true
    decreases n
  {
    if n > 0 {
      hide *;
      var c, a, q, rest, starts, at := ScanOne(b, off, n, qlen);
      ScanFinds(c, at, n - 1, qlen);
      AllMatchStep(a, q, off, Scan(c, at, n - 1, qlen).asks, rest, starts);
    }
  }

  /** The first question and the rest, on both sides. */
  lemma ScanOne(b: Bytes, off: nat, n: nat, qlen: nat)
    returns (c: Bytes, a: Ask, q: Question, rest: seq<Question>, starts: seq<nat>, at: nat)
    requires n > 0 && off <= qlen <= |b| && Asked(b[..qlen], off, n).Some?
    ensures at <= qlen <= |c| && Matches(a, q, off) == true
    ensures Asked(c[..qlen], at, n - 1).Some? && Asked(c[..qlen], at, n - 1).value.0 == rest && Asked(c[..qlen], at, n - 1).value.1 == starts
    ensures Asked(b[..qlen], off, n).value == ([q] + rest, [off] + starts, Asked(c[..qlen], at, n - 1).value.2)
    ensures var (s, t) := (Scan(b, off, n, qlen), Scan(c, at, n - 1, qlen)); s == Scanned([a] + t.asks, t.ok, t.end)
  {
    hide *;
    var m := b[..qlen];
    AskedHead(m, off, n);
    var (labels, z) := Labels(m, off).value;
    AskMatches(b, off, qlen);
    RestAsked(b, off, n, qlen);
    c := Dots(b, off, qlen);
    a := Ask(off, CString(c, off + 1), U16(c, z) == 1 && U16(c, z + 2) == 1);
    q := Question(labels, U16(m, z), U16(m, z + 2));
    rest, starts, at := Asked(m, z + 4, n - 1).value.0, Asked(m, z + 4, n - 1).value.1, z + 4;
    ScanStep(b, c, off, n, qlen, z, a);
    AskedStep(m, off, n, labels, z);
  }

  lemma AskedHead(q: Bytes, off: nat, n: nat)
    requires n > 0 && Asked(q, off, n).Some?
    ensures Labels(q, off).Some? && Labels(q, off).value.1 + 4 <= |q| && Asked(q, Labels(q, off).value.1 + 4, n - 1).Some?
  {
  }

  lemma RestAsked(b: Bytes, off: nat, n: nat, qlen: nat)
    requires n > 0 && off <= qlen <= |b| && off < |b| && Labels(b[..qlen], off).Some?
    ensures var at := Labels(b[..qlen], off).value.1; Asked(Dots(b, off, qlen)[..qlen], at + 4, n - 1) == Asked(b[..qlen], at + 4, n - 1)
  {
    hide *;
    LabelsScanned(b, off, qlen);
    DotsAfter(b, off, qlen);
    var (x, y, at) := (b[..qlen], Dots(b, off, qlen)[..qlen], Labels(b[..qlen], off).value.1 + 4);
    assert forall k :: at <= k < |x| ==> x[k] == y[k];
    AskedFrom(x, y, at, n - 1);
  }

  lemma ScanStep(b: Bytes, c: Bytes, off: nat, n: nat, qlen: nat, at: nat, a: Ask)
    requires n > 0 && off < |b| == |c| && off <= qlen <= |b| && at + 4 <= qlen && c == Dots(b, off, qlen)
    requires SkipName(b, off, qlen).Some? && SkipName(b, off, qlen).value + 1 == at
    requires a == Ask(off, CString(c, off + 1), U16(c, at) == 1 && U16(c, at + 2) == 1)
    ensures var (s, rest) := (Scan(b, off, n, qlen), Scan(c, at + 4, n - 1, qlen));
      s == Scanned([a] + rest.asks, rest.ok, rest.end)
  {
    hide Dots, SkipName, CString, U16;
  }

  lemma AskedStep(q: Bytes, off: nat, n: nat, labels: seq<Bytes>, at: nat)
    requires n > 0 && Labels(q, off) == Some((labels, at)) && at + 4 <= |q| && Asked(q, at + 4, n - 1).Some?
    ensures var (rest, starts, end) := Asked(q, at + 4, n - 1).value;
      Asked(q, off, n) == Some(([Question(labels, U16(q, at), U16(q, at + 2))] + rest, [off] + starts, end))
  {
    hide Labels, U16;
  }

  lemma OverreadsStep(b: Bytes, off: nat, n: nat, qlen: nat)
    requires n > 0 && off <= qlen <= |b| && Asked(b[..qlen], off, n).Some?
    ensures off < qlen && Asked(b[..qlen], off, n).Some? && Labels(b[..qlen], off).Some? && Labels(b[..qlen], off).value.1 + 4 <= qlen
    ensures Overreads(b, off, n, qlen) == Overreads(Dots(b, off, qlen), Labels(b[..qlen], off).value.1 + 4, n - 1, qlen)
  {
    AskedHead(b[..qlen], off, n);
    LabelsScanned(b, off, qlen);
    hide SkipName, Dots, Labels;
  }

  lemma OverreadsNone(b: Bytes, off: nat, qlen: nat)
    requires off <= qlen <= |b|
    ensures Overreads(b, off, 0, qlen) == false
  {
  }

  /** Where every question is complete, the code stays inside the message. */
  lemma {:induction false} AskedInside(b: Bytes, off: nat, n: nat, qlen: nat)
    requires off <= qlen <= |b| && Asked(b[..qlen], off, n).Some?
    ensures Overreads(b, off, n, qlen) == false
    decreases n
  {
    hide *;
    if n == 0 {
      OverreadsNone(b, off, qlen);
    } else {
      OverreadsStep(b, off, n, qlen);
      AskedHead(b[..qlen], off, n);
      RestAsked(b, off, n, qlen);
      AskedInside(Dots(b, off, qlen), Labels(b[..qlen], off).value.1 + 4, n - 1, qlen);
    }
  }

  // ---------------------------------------------------------------- what a resolver reads in the reply

  ghost predicate AsksAddress(q: Question) {
    q.qtype == 1 && q.qclass == 1
  }

  /** The questions that ask for an address, in order. */
  ghost function Picks(qs: seq<Question>): (r: seq<nat>)
    ensures forall i :: 0 <= i < |r| ==> r[i] < |qs| && AsksAddress(qs[r[i]])
    ensures forall i, j :: 0 <= i < j < |r| ==> r[i] < r[j]
    ensures forall k :: 0 <= k < |qs| && AsksAddress(qs[k]) ==> k in r
  {
    if qs == [] then [] else
    var r := Picks(qs[..|qs| - 1]);
    if AsksAddress(qs[|qs| - 1]) then r + [|qs| - 1] else r
  }

  lemma {:induction false} WantedPicks(asks: seq<Ask>, qs: seq<Question>)
    requires |asks| == |qs| && forall k :: 0 <= k < |qs| ==> (asks[k].a <==> AsksAddress(qs[k]))
    ensures |Wanted(asks)| == |Picks(qs)|
    ensures forall i :: 0 <= i < |Picks(qs)| ==> Wanted(asks)[i] == asks[Picks(qs)[i]]
  {
    if asks != [] {
      WantedPicks(asks[..|asks| - 1], qs[..|qs| - 1]);
    }
  }

  lemma {:induction false} AnswersAt(net: Word, w: seq<Ask>, ids: seq<nat>, i: nat)
    requires |w| == |ids| && (forall j :: 0 <= j < |ids| ==> ids[j] < WORD) && i < |w|
    ensures Answers(net, w, ids)[16 * i..16 * i + 16] == Answer(w[i].start, OrWord(net, ids[i]))
  {
    var (w', ids') := (w[..|w| - 1], ids[..|w| - 1]);
    var a := Answers(net, w', ids');
    if i < |w'| {
      AnswersAt(net, w', ids', i);
      assert Answers(net, w, ids)[16 * i..16 * i + 16] == a[16 * i..16 * i + 16];
    }
  }

  ghost predicate AnswerAt(b: Bytes, off: nat, start: nat, ip: Word) {
    off + 16 <= |b| && b[off..off + 16] == Answer(start, ip)
  }

  /** One answer reads as an address record whose owner is the name it points to. */
  lemma AnswerReads(b: Bytes, off: nat, n: nat, start: nat, ip: Word, rest: seq<Record>, end: nat)
    requires n > 0 && AnswerAt(b, off, start, ip) && start < 256 && start < off
    requires Name(b, start, start).Some? && Records(b, off + 16, n - 1) == Some((rest, end))
    ensures Records(b, off, n) == Some(([Record(Name(b, start, start).value.0, 1, 1, 1, BE32(ip))] + rest, end))
  {
    AnswerFields(b, off, start, ip);
    AnswerOwner(b, off, start);
    hide *;
    RecordsStep(b, off, n, Name(b, start, start).value.0, off + 2, rest, end);
  }

  lemma AnswerOwner(b: Bytes, off: nat, start: nat)
    requires off + 2 <= |b| && b[off] == 0xc0 && b[off + 1] == start < off && Name(b, start, start).Some?
    ensures Name(b, off, off) == Some((Name(b, start, start).value.0, off + 2))
  {
  }

  lemma AnswerFields(b: Bytes, off: nat, start: nat, ip: Word)
    requires off + 16 <= |b| && b[off..off + 16] == Answer(start, ip) && start < 256
    ensures b[off] == 0xc0 && b[off + 1] == start
    ensures U16(b, off + 2) == 1 && U16(b, off + 4) == 1 && U32(b, off + 6) == 1 && U16(b, off + 10) == 4
    ensures b[off + 12..off + 16] == BE32(ip)
  {
    var a := Answer(start, ip);
    assert a == [0xc0, start, 0, 1, 0, 1, 0, 0, 0, 1, 0, 4] + BE32(ip);
    forall k | 0 <= k < 16
      ensures b[off + k] == a[k]
    {
      assert b[off + k] == b[off..off + 16][k];
    }
    assert b[off + 0] == a[0];
    assert b[off + 12..off + 16] == a[12..16];
  }

  lemma RecordsStep(b: Bytes, off: nat, n: nat, labels: seq<Bytes>, at: nat, rest: seq<Record>, end: nat)
    requires n > 0 && Name(b, off, off) == Some((labels, at)) && at + 10 <= |b|
    requires at + 10 + U16(b, at + 8) <= |b| && Records(b, at + 10 + U16(b, at + 8), n - 1) == Some((rest, end))
    ensures var r := Record(labels, U16(b, at), U16(b, at + 2), U32(b, at + 4), b[at + 10..at + 10 + U16(b, at + 8)]);
      Records(b, off, n) == Some(([r] + rest, end))
  {
    hide Name, U16, U32;
  }

  ghost function AddressRecords(b: Bytes, starts: seq<nat>, ips: seq<Word>): seq<Record>
    requires |starts| == |ips| && forall i :: 0 <= i < |starts| ==> Name(b, starts[i], starts[i]).Some?
  {
    seq(|starts|, i requires 0 <= i < |starts| => Record(Name(b, starts[i], starts[i]).value.0, 1, 1, 1, BE32(ips[i])))
  }

  lemma AddressStep(b: Bytes, starts: seq<nat>, ips: seq<Word>)
    requires |starts| == |ips| > 0 && forall i :: 0 <= i < |starts| ==> Name(b, starts[i], starts[i]).Some?
    ensures forall i :: 0 <= i < |starts[1..]| ==> Name(b, starts[1..][i], starts[1..][i]).Some?
    ensures AddressRecords(b, starts, ips)
      == [Record(Name(b, starts[0], starts[0]).value.0, 1, 1, 1, BE32(ips[0]))] + AddressRecords(b, starts[1..], ips[1..])
  {
    hide Name, BE32;
  }

  lemma {:induction false} AnswersRead(b: Bytes, off: nat, starts: seq<nat>, ips: seq<Word>)
    requires |starts| == |ips| && |b| == off + 16 * |starts|
    requires forall i :: 0 <= i < |starts| ==> starts[i] < 256 && starts[i] < off && Name(b, starts[i], starts[i]).Some?
    requires forall i :: 0 <= i < |starts| ==> AnswerAt(b, off + 16 * i, starts[i], ips[i])
    ensures Records(b, off, |starts|) == Some((AddressRecords(b, starts, ips), |b|))
    decreases |starts|
  {
    if starts == [] {
      assert AddressRecords(b, starts, ips) == [];
    } else {
      forall i | 0 <= i < |starts| - 1
        ensures AnswerAt(b, off + 16 + 16 * i, starts[1..][i], ips[1..][i])
      {
        assert AnswerAt(b, off + 16 * (i + 1), starts[i + 1], ips[i + 1]);
      }
      assert AnswerAt(b, off + 16 * 0, starts[0], ips[0]);
      AddressStep(b, starts, ips);
      hide *;
      AnswersRead(b, off + 16, starts[1..], ips[1..]);
      AnswerReads(b, off, |starts|, starts[0], ips[0], AddressRecords(b, starts[1..], ips[1..]), |b|);
    }
  }

  /** The answer part of a reply, when every question pointed to has its name. */
  lemma AnswersDecode(r: Bytes, end: nat, net: Word, w: seq<Ask>, ids: seq<nat>, names: seq<seq<Bytes>>)
    requires |w| == |ids| == |names| && forall i :: 0 <= i < |ids| ==> ids[i] < WORD
    requires |r| == end + 16 * |w| && r[end..] == Answers(net, w, ids)
    requires forall i :: 0 <= i < |w| ==>
      w[i].start < 256 && w[i].start < end && Name(r, w[i].start, w[i].start).Some? && Name(r, w[i].start, w[i].start).value.0 == names[i]
    ensures Records(r, end, |w|).Some? && |Records(r, end, |w|).value.0| == |w| && Records(r, end, |w|).value.1 == |r|
    ensures forall i :: 0 <= i < |w| ==> Records(r, end, |w|).value.0[i] == Record(names[i], 1, 1, 1, BE32(OrWord(net, ids[i])))
  {
    var ps := seq(|w|, i requires 0 <= i < |w| => w[i].start);
    var ips := seq(|w|, i requires 0 <= i < |w| => OrWord(net, ids[i]));
    forall i | 0 <= i < |w|
      ensures AnswerAt(r, end + 16 * i, ps[i], ips[i])
    {
      AnswersAt(net, w, ids, i);
      assert r[end + 16 * i..end + 16 * i + 16] == r[end..][16 * i..16 * i + 16];
    }
    hide Answer, Answers, Name, Records, OrWord, BE32;
    AnswersRead(r, end, ps, ips);
  }

  /** The request as the theorem needs it: `n` questions in full, without NUL bytes, each starting below offset 256. */
  ghost predicate WellFormed(q: Bytes, qlen: nat) {
    12 <= qlen <= |q| && U16(q, 4) <= 32 &&
    match Asked(q[..qlen], 12, U16(q, 4))
    case None => false
    case Some((qs, starts, _)) =>
      (forall i :: 0 <= i < |qs| ==> NoNul(qs[i].name)) && forall i :: 0 <= i < |starts| ==> starts[i] < 256
  }

  ghost function RequestQuestions(q: Bytes, qlen: nat): seq<Question>
    requires WellFormed(q, qlen)
  {
    Asked(q[..qlen], 12, U16(q, 4)).value.0
  }

  /**
   A resolver reads the reply as the same questions, and one address record for each
   question that asks for one: its owner is the name asked, it lives a second, and it holds
   the address of the index found for the name.
   */
  lemma ReplyDecodes(q: Bytes, qlen: nat, net: Word, ids: seq<nat>)
    requires WellFormed(q, qlen)
    requires |ids| == |Picks(RequestQuestions(q, qlen))| && forall i :: 0 <= i < |ids| ==> ids[i] < WORD
    ensures var (qs, s) := (RequestQuestions(q, qlen), Scan(q, 12, U16(q, 4), qlen));
      var w := Wanted(s.asks);
      s.ok && |w| == |ids| <= 32 &&
      var m := Decode(Reply(q, s.end, |w|, Answers(net, w, ids)));
      m.Some? && m.value.id == U16(q, 0) && ReplyFlags(U16(q, 2), m.value.flags) == true && m.value.questions == qs
      && |m.value.answers| == |ids|
      && forall i :: 0 <= i < |ids| ==>
           m.value.answers[i] == Record(qs[Picks(qs)[i]].name, 1, 1, 1, BE32(OrWord(net, ids[i])))
           && w[i].name == Dotted(qs[Picks(qs)[i]].name)
  {
    var qs := RequestQuestions(q, qlen);
    var s := Scan(q, 12, U16(q, 4), qlen);
    RequestScanned(q, qlen);
    var w := Wanted(s.asks);
    var r := Reply(q, s.end, |w|, Answers(net, w, ids));
    ReplyQuestions(q, qlen, r, net, w, ids);
    ReplyAnswers(q, qlen, r, net, w, ids);
    FlagsAnswer(U16(q, 2));
    hide Scan, Wanted, Reply, Answers, Asked, Picks, WellFormed, Records, Questions, U16, RequestQuestions, Or, And, Flags;
    assert Decode(r).Some?;
  }

  /** The questions of a well-formed request, as the scan finds them. */
  lemma RequestScanned(q: Bytes, qlen: nat)
    requires WellFormed(q, qlen)
    ensures 12 <= qlen <= |q| && Asked(q[..qlen], 12, U16(q, 4)).Some?
    ensures var (qs, starts, end) := Asked(q[..qlen], 12, U16(q, 4)).value;
      var (s, picks) := (Scan(q, 12, U16(q, 4), qlen), Picks(qs));
      var w := Wanted(s.asks);
      s.ok && s.end == end && |w| == |picks| <= 32
      && forall i :: 0 <= i < |w| ==> w[i].start == starts[picks[i]] && w[i].name == Dotted(qs[picks[i]].name)
  {
    var (qs, starts, end) := Asked(q[..qlen], 12, U16(q, 4)).value;
    ScanFinds(q, 12, U16(q, 4), qlen);
    var s := Scan(q, 12, U16(q, 4), qlen);
    assert AllMatch(s.asks, qs, starts);
    WantedPicks(s.asks, qs);
    forall i | 0 <= i < |Picks(qs)|
      ensures Wanted(s.asks)[i].start == starts[Picks(qs)[i]] && Wanted(s.asks)[i].name == Dotted(qs[Picks(qs)[i]].name)
    {
      assert Matches(s.asks[Picks(qs)[i]], qs[Picks(qs)[i]], starts[Picks(qs)[i]]);
    }
  }

  lemma ReplyAnswers(q: Bytes, qlen: nat, r: Bytes, net: Word, w: seq<Ask>, ids: seq<nat>)
    requires WellFormed(q, qlen) == true && |w| == |ids| && forall i :: 0 <= i < |ids| ==> ids[i] < WORD
    requires w == Wanted(Scan(q, 12, U16(q, 4), qlen).asks)
    requires var end := Asked(q[..qlen], 12, U16(q, 4)).value.2;
      |r| == end + 16 * |w| && Same(q[..qlen], r, 12, end) && r[end..] == Answers(net, w, ids)
    ensures var (qs, _, end) := Asked(q[..qlen], 12, U16(q, 4)).value;
      Records(r, end, |w|).Some? && |Records(r, end, |w|).value.0| == |w| == |Picks(qs)| && Records(r, end, |w|).value.1 == |r|
      && forall i :: 0 <= i < |w| ==>
           Records(r, end, |w|).value.0[i] == Record(qs[Picks(qs)[i]].name, 1, 1, 1, BE32(OrWord(net, ids[i])))
  {
    hide *;
    RequestScanned(q, qlen);
    var (qs, starts, end) := Asked(q[..qlen], 12, U16(q, 4)).value;
    var names := seq(|w|, i requires 0 <= i < |w| => qs[Picks(qs)[i]].name);
    forall i | 0 <= i < |w|
      ensures w[i].start < 256 && w[i].start < end && Name(r, w[i].start, w[i].start).Some?
      ensures Name(r, w[i].start, w[i].start).value.0 == names[i]
    {
      AnswerPlaced(q, qlen, r, Picks(qs)[i]);
    }
    AnswersDecode(r, end, net, w, ids, names);
  }

  lemma AnswerPlaced(q: Bytes, qlen: nat, r: Bytes, k: nat)
    requires WellFormed(q, qlen) == true && k < |Asked(q[..qlen], 12, U16(q, 4)).value.0|
    requires Same(q[..qlen], r, 12, Asked(q[..qlen], 12, U16(q, 4)).value.2)
    ensures var (qs, starts, end) := Asked(q[..qlen], 12, U16(q, 4)).value;
      starts[k] < 256 && starts[k] < end && Name(r, starts[k], starts[k]).Some? && Name(r, starts[k], starts[k]).value.0 == qs[k].name
  {
    AskedName(q[..qlen], r, 12, U16(q, 4), k);
  }

  /** The header and the questions of the reply. */
  lemma ReplyQuestions(q: Bytes, qlen: nat, r: Bytes, net: Word, w: seq<Ask>, ids: seq<nat>)
    requires WellFormed(q, qlen) && |w| == |ids| <= 32 && forall i :: 0 <= i < |ids| ==> ids[i] < WORD
    requires var end := Asked(q[..qlen], 12, U16(q, 4)).value.2;
      12 <= end <= |q| && r == Reply(q, end, |w|, Answers(net, w, ids))
    ensures var (qs, _, end) := Asked(q[..qlen], 12, U16(q, 4)).value;
      |r| == end + 16 * |w| && Same(q[..qlen], r, 12, end) && r[end..] == Answers(net, w, ids)
      && Questions(r, 12, U16(q, 4)) == Some((qs, end))
    ensures U16(r, 0) == U16(q, 0) && U16(r, 2) == Flags(U16(q, 2)) && U16(r, 4) == U16(q, 4)
    ensures U16(r, 6) == |w| && U16(r, 8) == 0 && U16(r, 10) == 0
  {
    var (qs, _, end) := Asked(q[..qlen], 12, U16(q, 4)).value;
    ReplyHeader(q, end, |w|, Answers(net, w, ids));
    hide Reply;
    AskedQuestions(q[..qlen], r, 12, U16(q, 4));
  }

  lemma ReplyHeader(q: Bytes, end: nat, n: nat, answers: Bytes)
    requires 12 <= end <= |q| && n <= 32
    ensures var r := Reply(q, end, n, answers);
      |r| == end + |answers| && r[end..] == answers && (forall k :: 12 <= k < end ==> r[k] == q[k])
      && U16(r, 0) == U16(q, 0) && U16(r, 2) == Flags(U16(q, 2)) && U16(r, 4) == U16(q, 4)
      && U16(r, 6) == n && U16(r, 8) == 0 && U16(r, 10) == 0
  {
    var (r, p) := (Reply(q, end, n, answers), q[..end] + answers);
    assert U16(p, 2) == U16(q, 2) && p[..2] == q[..2] && p[4..6] == q[4..6] && p[12..] == q[12..end] + answers;
    hide Flags;
    var h := q[..2] + BE16(Flags(U16(q, 2))) + q[4..6] + BE16(n) + [0, 0, 0, 0];
    assert |h| == 12 && r == h + q[12..end] + answers;
    assert forall k :: 0 <= k < 12 ==> r[k] == h[k];
  }

  // ---------------------------------------------------------------- the addresses handed out

  lemma FewerThan<T>(a: set<T>, b: set<T>, x: T)
    requires a <= b && x in b && x !in a
    ensures |a| < |b|
  {
    var d := b - a;
    assert x in d && b == a + d && |b| == |a| + |d|;
  }

  /** A name just found stays while no more than `max` names are found in all. */
  lemma {:induction false} Stays(c: Cache, names: seq<Bytes>, max: nat, all: set<Bytes>, j: nat) returns (since: set<Bytes>)
    requires Consistent(c, max) && max >= 1 && Elems(names) <= all && |all| <= max && j < |names|
    ensures since <= all && names[j] !in since && |since| < max
    ensures Aged(FindAll(c, names, max).0, names[j], FindAll(c, names, max).1[j], since, max)
  {
    var m := |names| - 1;
    var (init, last) := (names[..m], names[m]);
    var (c1, ids) := FindAll(c, init, max);
    assert Elems(init) <= Elems(names);
    assert names[j] in Elems(names) && last in Elems(names);
    if j == m {
      JustFound(c1, last, max);
      since := {};
      FewerThan(since, all, names[j]);
    } else {
      assert init[j] == names[j];
      since := Stays(c, init, max, all, j);
      if last == names[j] {
        SameIndex(c1, last, ids[j], since, max);
        JustFound(c1, last, max);
        since := {};
      } else {
        AgedStep(c1, names[j], ids[j], since, FindOp(last), max);
        since := since + {last};
      }
      FewerThan(since, all, names[j]);
    }
  }

  /** Finding a name that is still there gives its index again. */
  lemma SameIndex(c: Cache, name: Bytes, i: nat, since: set<Bytes>, max: nat)
    requires Consistent(c, max) && max >= 1 && Aged(c, name, i, since, max) && |since| < max
    ensures DnsCache.Find(c, name, max).1 == i
  {
    assert c.slots[i] == name && c.slots[IndexOf(c.slots, name)] == name;
  }

  /** When at most `max` names are asked, every address in the reply looks up to its name. */
  lemma AddressesResolve(c: Cache, names: seq<Bytes>, max: nat, net: Word, mask: Word)
    requires Consistent(c, max) && max >= 1 && |Elems(names)| <= max && max <= Signed(Not(mask))
    requires Ones(Not(mask)) && And(net, Not(mask)) == 0
    ensures var (c', ids) := FindAll(c, names, max);
      forall j :: 0 <= j < |names| ==> ids[j] < WORD && Resolve(c', OrWord(net, ids[j]), mask).1 == Some(names[j])
  {
    var (c', ids) := FindAll(c, names, max);
    forall j | 0 <= j < |names|
      ensures Resolve(c', OrWord(net, ids[j]), mask).1 == Some(names[j])
    {
      var since := Stays(c, names, max, Elems(names), j);
      OnesRecover(net, Not(mask), ids[j]);
    }
  }

  // ---------------------------------------------------------------- what a client gets

  /** The names of the questions that ask for an address, as the cache sees them. */
  ghost function PickedNames(qs: seq<Question>): seq<Bytes> {
    seq(|Picks(qs)|, i requires 0 <= i < |Picks(qs)| => Dotted(qs[Picks(qs)[i]].name))
  }

  /** The address in an answer leads back to the name that was asked for. */
  ghost predicate Leads(a: Record, q: Question, mask: Word, c: Cache)
    requires Elems(c.lru) == Elems(c.slots)
  {
    && a.name == q.name && a.rtype == 1 && a.rclass == 1 && a.ttl == 1 && |a.data| == 4
    && U32(a.data, 0) < WORD && Resolve(c, U32(a.data, 0), mask).1 == Some(Dotted(q.name))
  }

  /** The reply as a resolver reads it: the questions, and an answer to each that asks for an address. */
  ghost predicate Serves(q: Bytes, qlen: nat, mask: Word, c: Cache, reply: Bytes)
    requires WellFormed(q, qlen) && Elems(c.lru) == Elems(c.slots)
  {
    var (qs, m) := (RequestQuestions(q, qlen), Decode(reply));
    && m.Some? && m.value.id == U16(q, 0) && ReplyFlags(U16(q, 2), m.value.flags) == true
    && m.value.questions == qs && |m.value.answers| == |Picks(qs)|
    && forall i :: 0 <= i < |Picks(qs)| ==> Leads(m.value.answers[i], qs[Picks(qs)[i]], mask, c)
  }

  lemma BE32Reads(x: Word)
    ensures U32(BE32(x), 0) == x
  {
    var (h, l) := (x / 65536, x % 65536);
    assert x / 0x100_0000 == h / 256 && x / 0x1_0000 % 256 == h % 256;
    assert x / 0x100 % 256 == l / 256 && x % 256 == l % 256 by {
      assert x == 256 * (256 * h + l / 256) + l % 256;
    }
    assert h / 256 * 256 + h % 256 == h && l / 256 * 256 + l % 256 == l;
  }

  // ---------------------------------------------------------------- on the buffers

  /** The questions read so far, and what is left to read. */
  ghost predicate Reading(q: Bytes, n: nat, qlen: nat, done: seq<Ask>, b: Bytes, off: nat, left: nat) {
    && 12 <= qlen <= |q| && off <= qlen <= |b| == |q| && |done| + left == n && (qlen == |q| ==> !Overreads(b, off, left, qlen))
    && var (s, t) := (Scan(q, 12, n, qlen), Scan(b, off, left, qlen));
       s.asks == done + t.asks && s.ok == t.ok && s.end == t.end
  }

  /** The addresses handed out so far, with the places of their questions. */
  ghost predicate Handed(c0: Cache, max: nat, net: Word, done: seq<Ask>, c: Cache, ipo: seq<nat>, ips: seq<Word>) {
    && Consistent(c0, max) && 1 <= max <= WORD && |ipo| == |ips| == |Wanted(done)|
    && var (c', ids) := FindAll(c0, AskNames(Wanted(done)), max);
       c == c' && forall i :: 0 <= i < |ipo| ==> ipo[i] == Wanted(done)[i].start && ips[i] == OrWord(net, ids[i])
  }

  lemma ReadingStarts(q: Bytes, n: nat, qlen: nat)
    requires Inside(q, qlen, n)
    ensures Reading(q, n, qlen, [], q, 12, n) == true && 12 <= qlen <= |q|
  {
    assert [] + Scan(q, 12, n, qlen).asks == Scan(q, 12, n, qlen).asks;
  }

  lemma ReadingInside(q: Bytes, n: nat, qlen: nat, done: seq<Ask>, b: Bytes, off: nat, left: nat)
    requires Reading(q, n, qlen, done, b, off, left) == true && left > 0
    ensures off <= qlen <= |b| && off < |b|
  {
  }

  lemma ReadingFails(q: Bytes, n: nat, qlen: nat, done: seq<Ask>, b: Bytes, off: nat, left: nat)
    requires Reading(q, n, qlen, done, b, off, left) == true && left > 0
    requires SkipName(b, off, qlen) == None || SkipName(b, off, qlen).value + 4 >= qlen
    ensures Scan(q, 12, n, qlen).asks == done && !Scan(q, 12, n, qlen).ok
  {
    assert done + [] == done;
  }

  lemma ReadingEnds(q: Bytes, n: nat, qlen: nat, done: seq<Ask>, b: Bytes, off: nat)
    requires Reading(q, n, qlen, done, b, off, 0) == true
    ensures Scan(q, 12, n, qlen) == Scanned(done, true, off)
  {
    assert done + [] == done;
  }

  lemma ReadingOn(q: Bytes, n: nat, qlen: nat, done: seq<Ask>, b: Bytes, off: nat, left: nat, z: nat, a: Ask)
    requires Reading(q, n, qlen, done, b, off, left) == true && left > 0
    requires SkipName(b, off, qlen) == Some(z) && z + 4 < qlen
    requires var b' := Dots(b, off, qlen);
      a == Ask(off, CString(b', off + 1), U16(b', z + 1) == 1 && U16(b', z + 3) == 1)
    ensures Reading(q, n, qlen, done + [a], Dots(b, off, qlen), z + 5, left - 1) == true
  {
    hide CString, U16, Dots, SkipName;
    var t := Scan(Dots(b, off, qlen), z + 5, left - 1, qlen);
    assert done + ([a] + t.asks) == done + [a] + t.asks;
  }

  lemma WantedStep(done: seq<Ask>, a: Ask)
    ensures Wanted(done + [a]) == if a.a then Wanted(done) + [a] else Wanted(done)
  {
    assert (done + [a])[..|done|] == done;
  }

  lemma HandedSkips(c0: Cache, max: nat, net: Word, done: seq<Ask>, c: Cache, ipo: seq<nat>, ips: seq<Word>, a: Ask)
    requires Handed(c0, max, net, done, c, ipo, ips) == true && !a.a
    ensures Handed(c0, max, net, done + [a], c, ipo, ips) == true
  {
    WantedStep(done, a);
  }

  lemma HandedOn(c0: Cache, max: nat, net: Word, done: seq<Ask>, c: Cache, ipo: seq<nat>, ips: seq<Word>, a: Ask)
    requires Handed(c0, max, net, done, c, ipo, ips) == true && a.a
    ensures Consistent(c, max) && DnsCache.Find(c, a.name, max).1 < WORD
    ensures var (c', i) := DnsCache.Find(c, a.name, max);
      Handed(c0, max, net, done + [a], c', ipo + [a.start], ips + [OrWord(net, i)]) == true
  {
    WantedStep(done, a);
    var (w, names) := (Wanted(done), AskNames(Wanted(done)));
    var names' := AskNames(w + [a]);
    assert names' == names + [a.name] && names'[..|names|] == names;
  }

  method ReadName(rb: array<byte>, start: nat, qlen: nat) returns (ok: bool, off: nat)
    requires start <= qlen <= rb.Length && start < rb.Length
    modifies rb
    ensures ok <==> SkipName(old(rb[..]), start, qlen).Some?
    ensures ok ==> off == SkipName(old(rb[..]), start, qlen).value && rb[..] == Dots(old(rb[..]), start, qlen)
  {
    off := start;
    while rb[off] != 0
      invariant off <= qlen <= rb.Length && off < rb.Length
      invariant SkipName(rb[..], off, qlen) == SkipName(old(rb[..]), start, qlen)
      invariant Dots(rb[..], off, qlen) == Dots(old(rb[..]), start, qlen)
      decreases qlen - off
    {
      var poff := off;
      off := off + 1 + rb[off];
      if off >= qlen {
        return false, off;
      }
      ghost var was := rb[..];
      rb[poff] := 46;
      assert rb[..] == was[poff := 46];
      SkipFrom(was, rb[..], off, qlen);
    }
    ok := true;
  }

  method ReadQuestions(self: MappedDNS, rb: array<byte>, qlen: nat, n: nat, ips: array<Word>, ipo: array<nat>)
    returns (ok: bool, off: nat, ipn: nat, ghost done: seq<Ask>)
    requires self.Valid() == true && 1 <= self.max <= WORD && Inside(rb[..], qlen, n) == true && n <= 32 && ips.Length == ipo.Length == 32
    modifies rb, ips, ipo, self`use, self`items, self.tree, self.tree.mem.Keys, self.list, self.list.repr, self.records
    ensures self.Valid() == true && done == Scan(old(rb[..]), 12, n, qlen).asks && ok == Scan(old(rb[..]), 12, n, qlen).ok
    ensures ok ==> off == Scan(old(rb[..]), 12, n, qlen).end
    ensures ipn <= 32 && Handed(old(self.Abs()), self.max, self.net, done, self.Abs(), ipo[..ipn], ips[..ipn]) == true
  {
    hide *;
    ghost var (q, c0) := (rb[..], self.Abs());
    off, ipn, done := 12, 0, [];
    ReadingStarts(q, n, qlen);
    HandedStarts(self, c0);
    for i := 0 to n
      invariant self.Valid() == true && ipn <= i && off <= qlen <= rb.Length
      invariant fresh(self.tree.mem.Keys - old(self.tree.mem.Keys)) && fresh(self.list.repr - old(self.list.repr))
      invariant Reading(q, n, qlen, done, rb[..], off, n - i) == true
      invariant Handed(c0, self.max, self.net, done, self.Abs(), ipo[..ipn], ips[..ipn]) == true
    {
      ghost var b := rb[..];
      ReadingInside(q, n, qlen, done, b, off, n - i);
      var z, a;
      ok, z, a := ReadQuestion(rb, off, qlen);
      if !ok {
        ReadingFails(q, n, qlen, done, b, off, n - i);
        return false, z, ipn, done;
      }
      ReadingOn(q, n, qlen, done, b, off, n - i, z, a);
      ipn := HandOut(self, a, ips, ipo, ipn, c0, done);
      done := done + [a];
      off := z + 5;
    }
    ok := true;
    ReadingEnds(q, n, qlen, done, rb[..], off);
  }

  /** An address for the question, if it asks for one. */
  method HandOut(self: MappedDNS, a: Ask, ips: array<Word>, ipo: array<nat>, ipn0: nat, ghost c0: Cache, ghost done: seq<Ask>)
    returns (ipn: nat)
    requires self.Valid() == true && 1 <= self.max <= WORD && ipn0 < ips.Length == ipo.Length == 32
    requires Handed(c0, self.max, self.net, done, self.Abs(), ipo[..ipn0], ips[..ipn0]) == true
    modifies ips, ipo, self`use, self`items, self.tree, self.tree.mem.Keys, self.list, self.list.repr, self.records
    ensures self.Valid() == true && ipn <= ipn0 + 1
    ensures Handed(c0, self.max, self.net, done + [a], self.Abs(), ipo[..ipn], ips[..ipn]) == true
    ensures fresh(self.tree.mem.Keys - old(self.tree.mem.Keys)) && fresh(self.list.repr - old(self.list.repr))
  {
    hide *;
    ipn := ipn0;
    ipo[ipn] := a.start;
    if a.a {
      HandedOn(c0, self.max, self.net, done, self.Abs(), ipo[..ipn], ips[..ipn], a);
      var idx := self.Find(a.name);
      ips[ipn] := OrWord(self.net, idx);
      ipn := ipn + 1;
      assert ipo[..ipn] == ipo[..ipn0] + [a.start] && ips[..ipn] == ips[..ipn0] + [OrWord(self.net, idx)];
    } else {
      HandedSkips(c0, self.max, self.net, done, self.Abs(), ipo[..ipn], ips[..ipn], a);
    }
  }

  lemma HandedStarts(self: MappedDNS, c0: Cache)
    requires self.Valid() && 1 <= self.max <= WORD && c0 == self.Abs()
    ensures Handed(c0, self.max, self.net, [], c0, [], []) == true
  {
    self.AbsConsistent();
  }

  /** One question: its name, dotted in place, and whether it asks for an address. */
  method ReadQuestion(rb: array<byte>, off: nat, qlen: nat) returns (ok: bool, z: nat, a: Ask)
    requires off <= qlen <= rb.Length && off < rb.Length
    modifies rb
    ensures ok <==> SkipName(old(rb[..]), off, qlen).Some? && SkipName(old(rb[..]), off, qlen).value + 4 < qlen
    ensures ok ==> z == SkipName(old(rb[..]), off, qlen).value && rb[..] == Dots(old(rb[..]), off, qlen) && z + 5 <= |rb[..]|
    ensures ok ==> a == Ask(off, CString(rb[..], off + 1), U16(rb[..], z + 1) == 1 && U16(rb[..], z + 3) == 1)
  {
    ok, z := ReadName(rb, off, qlen);
    if !ok || z + 4 >= qlen {
      return false, z, Ask(off, [], false);
    }
    var name := CStringAt(rb, off + 1);
    var (qtype, qclass) := (U16([rb[z + 1], rb[z + 2]], 0), U16([rb[z + 3], rb[z + 4]], 0));
    a := Ask(off, name, qtype == 1 && qclass == 1);
  }

  method CStringAt(rb: array<byte>, i: nat) returns (s: Bytes)
    ensures s == CString(rb[..], i)
  {
    s := [];
    var k := i;
    while k < rb.Length && rb[k] != 0
      invariant CString(rb[..], i) == s + CString(rb[..], k)
      decreases rb.Length - k
    {
      assert s + ([rb[k]] + CString(rb[..], k + 1)) == s + [rb[k]] + CString(rb[..], k + 1);
      s := s + [rb[k]];
      k := k + 1;
    }
  }

  /** The buffer with `x` written at `off`. */
  ghost function Splice(b: Bytes, off: nat, x: Bytes): (r: Bytes)
    requires off + |x| <= |b|
    ensures |r| == |b|
  {
    b[..off] + x + b[off + |x|..]
  }

  lemma SpliceTwice(b: Bytes, off: nat, x: Bytes, y: Bytes)
    requires off + |x| + |y| <= |b|
    ensures Splice(Splice(b, off, x), off + |x|, y) == Splice(b, off, x + y)
  {
  }

  method WriteU16(sb: array<byte>, off: nat, v: nat)
    requires off + 2 <= sb.Length && v < 65536
    modifies sb
    ensures sb[..] == Splice(old(sb[..]), off, BE16(v))
  {
    sb[off], sb[off + 1] := v / 256, v % 256;
  }

  method WriteU32(sb: array<byte>, off: nat, v: Word)
    requires off + 4 <= sb.Length
    modifies sb
    ensures sb[..] == Splice(old(sb[..]), off, BE32(v))
  {
    sb[off] := v / 0x100_0000;
    sb[off + 1] := v / 0x1_0000 % 256;
    sb[off + 2] := v / 0x100 % 256;
    sb[off + 3] := v % 256;
  }

  method WriteAnswer(sb: array<byte>, off: nat, start: nat, ip: Word)
    requires off + 16 <= sb.Length
    modifies sb
    ensures sb[..] == Splice(old(sb[..]), off, Answer(start, ip))
  {
    ghost var (b, x) := (sb[..], [0xc0, start % 256]);
    sb[off], sb[off + 1] := 0xc0, start % 256;
    assert sb[..] == Splice(b, off, x);
    hide Splice, BE16, BE32;
    WriteU16(sb, off + 2, 1);
    SpliceTwice(b, off, x, BE16(1));
    WriteU16(sb, off + 4, 1);
    SpliceTwice(b, off, x + BE16(1), BE16(1));
    WriteU32(sb, off + 6, 1);
    SpliceTwice(b, off, x + BE16(1) + BE16(1), BE32(1));
    WriteU16(sb, off + 10, 4);
    SpliceTwice(b, off, x + BE16(1) + BE16(1) + BE32(1), BE16(4));
    WriteU32(sb, off + 12, ip);
    SpliceTwice(b, off, x + BE16(1) + BE16(1) + BE32(1) + BE16(4), BE32(ip));
  }

  /** The answers after the questions, as far as they fit. */
  method WriteAnswers(sb: array<byte>, end: nat, slen: nat, ips: array<Word>, ipo: array<nat>, ipn: nat) returns (ok: bool, off: nat)
    requires end <= slen <= sb.Length && ipn <= ips.Length == ipo.Length
    modifies sb
    ensures ok <==> end + 16 * ipn <= slen
    ensures ok ==> off == end + 16 * ipn && sb[..off] == old(sb[..end]) + Rows(ipo[..ipn], ips[..ipn])
    ensures sb[..end] == old(sb[..end])
  {
    off := end;
    for i := 0 to ipn
      invariant off == end + 16 * i <= slen
      invariant sb[..off] == old(sb[..end]) + Rows(ipo[..i], ips[..i])
    {
      if off + 15 >= slen {
        return false, off;
      }
      ghost var was := sb[..];
      WriteAnswer(sb, off, ipo[i], ips[i]);
      assert sb[..off + 16] == was[..off] + Answer(ipo[i], ips[i]);
      assert ipo[..i + 1][..i] == ipo[..i] && ips[..i + 1][..i] == ips[..i];
      assert was[..off] + Answer(ipo[i], ips[i]) == old(sb[..end]) + (Rows(ipo[..i], ips[..i]) + Answer(ipo[i], ips[i]));
      off := off + 16;
    }
    ok := true;
    assert sb[..end] == sb[..off][..end];
  }

  ghost function Rows(starts: seq<nat>, ips: seq<Word>): (r: Bytes)
    requires |starts| == |ips|
    ensures |r| == 16 * |starts|
  {
    if starts == [] then [] else
    Rows(starts[..|starts| - 1], ips[..|starts| - 1]) + Answer(starts[|starts| - 1], ips[|starts| - 1])
  }

  lemma {:induction false} RowsAnswers(net: Word, w: seq<Ask>, ids: seq<nat>, starts: seq<nat>, ips: seq<Word>)
    requires |w| == |ids| == |starts| == |ips| && forall i :: 0 <= i < |ids| ==> ids[i] < WORD
    requires forall i :: 0 <= i < |w| ==> starts[i] == w[i].start && ips[i] == OrWord(net, ids[i])
    ensures Rows(starts, ips) == Answers(net, w, ids)
  {
    if w != [] {
      var m := |w| - 1;
      RowsAnswers(net, w[..m], ids[..m], starts[..m], ips[..m]);
    }
  }

  /** The header fields of a reply; the rest stays. */
  method FillHeader(res: array<byte>, ipn: nat)
    requires 12 <= res.Length && ipn <= 32
    modifies res
    ensures res[..] == Respond(old(res[..]), ipn)
  {
    ghost var b := res[..];
    var fl := Flags(U16([res[2], res[3]], 0));
    WriteU16(res, 2, fl);
    WriteU16(res, 6, ipn);
    WriteU16(res, 8, 0);
    WriteU16(res, 10, 0);
    HeaderSplices(b, BE16(fl), BE16(ipn), BE16(0), BE16(0));
  }

  lemma HeaderSplices(b: Bytes, f: Bytes, n: Bytes, x: Bytes, y: Bytes)
    requires 12 <= |b| && |f| == |n| == |x| == |y| == 2
    ensures Splice(Splice(Splice(Splice(b, 2, f), 6, n), 8, x), 10, y) == b[..2] + f + b[4..6] + n + (x + y) + b[12..]
  {
    SpliceTwice(Splice(b, 2, f), 6, n, x);
    SpliceTwice(Splice(b, 2, f), 6, n + x, y);
    var c := Splice(b, 2, f);
    assert c[..6] == b[..2] + f + b[4..6] && c[12..] == b[12..];
    assert Splice(c, 6, n + x + y) == c[..6] + (n + x + y) + c[12..];
  }

  /** What `hev_mapped_dns_handle` says of a request: the new cache, and the reply, if there is one. */
  ghost predicate Outcome(q: Bytes, qlen: nat, slen: nat, net: Word, max: nat, c0: Cache, c: Cache, reply: Option<Bytes>) {
    && 12 <= qlen <= |q| && Consistent(c0, max) && 1 <= max <= WORD
    && if slen < qlen || U16(q, 4) > 32 then reply == None && c == c0
       else
         var s := Scan(q, 12, U16(q, 4), qlen);
         var w := Wanted(s.asks);
         var (c', ids) := FindAll(c0, AskNames(w), max);
         && c == c'
         && reply == if s.ok && s.end + 16 * |w| <= slen then Some(Reply(q, s.end, |w|, Answers(net, w, ids))) else None
  }

  /** What a well-formed request gets: a reply if there is room for it, and in it addresses that lead back to the names. */
  ghost predicate Promise(q: Bytes, qlen: nat, slen: nat, net: Word, mask: Word, max: nat, c: Cache, reply: Option<Bytes>)
    requires Elems(c.lru) == Elems(c.slots)
  {
    WellFormed(q, qlen) && |Elems(PickedNames(RequestQuestions(q, qlen)))| <= max && Ones(Not(mask)) && And(net, Not(mask)) == 0 ==>
      && (reply.Some? <==>
           qlen <= slen && Asked(q[..qlen], 12, U16(q, 4)).value.2 + 16 * |Picks(RequestQuestions(q, qlen))| <= slen)
      && (reply.Some? ==> Serves(q, qlen, mask, c, reply.value))
  }

  /** The whole way: the addresses that a resolver reads in the reply look up to the names that were asked for. */
  lemma PromiseKept(q: Bytes, qlen: nat, slen: nat, net: Word, mask: Word, max: nat, c0: Cache, c: Cache, reply: Option<Bytes>)
    requires Outcome(q, qlen, slen, net, max, c0, c, reply) == true && max <= Signed(Not(mask))
    ensures Elems(c.lru) == Elems(c.slots) && Promise(q, qlen, slen, net, mask, max, c, reply) == true
  {
    if WellFormed(q, qlen) && |Elems(PickedNames(RequestQuestions(q, qlen)))| <= max && Ones(Not(mask)) && And(net, Not(mask)) == 0 {
      RequestScanned(q, qlen);
      if qlen <= slen {
        var s := Scan(q, 12, U16(q, 4), qlen);
        var w := Wanted(s.asks);
        var qs := RequestQuestions(q, qlen);
        var (c', ids) := FindAll(c0, AskNames(w), max);
        assert AskNames(w) == PickedNames(qs);
        AddressesResolve(c0, PickedNames(qs), max, net, mask);
        ReplyDecodes(q, qlen, net, ids);
        if s.end + 16 * |w| <= slen {
          AllLead(q, qlen, net, mask, c, ids, reply.value);
        }
      }
    }
  }

  lemma LeadsOne(a: Record, q: Question, ip: Word, mask: Word, c: Cache)
    requires Elems(c.lru) == Elems(c.slots) && a == Record(q.name, 1, 1, 1, BE32(ip)) && Resolve(c, ip, mask).1 == Some(Dotted(q.name))
    ensures Leads(a, q, mask, c)
  {
    BE32Reads(ip);
  }

  lemma AllLead(q: Bytes, qlen: nat, net: Word, mask: Word, c: Cache, ids: seq<nat>, reply: Bytes)
    requires WellFormed(q, qlen) && Elems(c.lru) == Elems(c.slots)
    requires var (qs, m) := (RequestQuestions(q, qlen), Decode(reply));
      && |ids| == |Picks(qs)| && (forall i :: 0 <= i < |ids| ==> ids[i] < WORD)
      && m.Some? && m.value.id == U16(q, 0) && ReplyFlags(U16(q, 2), m.value.flags) == true && m.value.questions == qs && |m.value.answers| == |ids|
      && (forall i :: 0 <= i < |ids| ==>
           && m.value.answers[i] == Record(qs[Picks(qs)[i]].name, 1, 1, 1, BE32(OrWord(net, ids[i])))
           && Resolve(c, OrWord(net, ids[i]), mask).1 == Some(Dotted(qs[Picks(qs)[i]].name)))
    ensures Serves(q, qlen, mask, c, reply)
  {
    var (qs, m) := (RequestQuestions(q, qlen), Decode(reply).value);
    hide Leads, Decode, Picks, Resolve, ReplyFlags, U16, OrWord, BE32, Dotted;
    forall i | 0 <= i < |Picks(qs)|
      ensures Leads(m.answers[i], qs[Picks(qs)[i]], mask, c)
    {
      LeadsOne(m.answers[i], qs[Picks(qs)[i]], OrWord(net, ids[i]), mask, c);
    }
  }

  lemma OutcomeIs(q: Bytes, qlen: nat, slen: nat, net: Word, max: nat, c0: Cache, c: Cache, done: seq<Ask>, ok: bool, end: nat,
                  starts: seq<nat>, ips: seq<Word>, reply: Option<Bytes>)
    requires 12 <= qlen <= |q| && qlen <= slen && U16(q, 4) <= 32 && Handed(c0, max, net, done, c, starts, ips) == true
    requires var s := Scan(q, 12, U16(q, 4), qlen); done == s.asks && ok == s.ok && (ok ==> end == s.end)
    requires |starts| == |ips| <= 32 && (ok ==> 12 <= end <= qlen)
    requires reply == if ok && end + 16 * |ips| <= slen then Some(Respond(q[..end] + Rows(starts, ips), |ips|)) else None
    ensures Outcome(q, qlen, slen, net, max, c0, c, reply) == true
  {
    if ok && end + 16 * |ips| <= slen {
      var w := Wanted(done);
      var (c', ids) := FindAll(c0, AskNames(w), max);
      RowsAnswers(net, w, ids, starts, ips);
    }
  }

  lemma Limits(self: MappedDNS)
    requires self.Valid() && 1 <= self.max <= Signed(Not(self.mask))
    ensures self.max <= WORD && Consistent(self.Abs(), self.max)
  {
    self.AbsConsistent();
  }

  lemma NoOutcome(q: Bytes, qlen: nat, slen: nat, net: Word, max: nat, c0: Cache)
    requires 12 <= qlen <= |q| && Consistent(c0, max) && 1 <= max <= WORD && (slen < qlen || U16(q, 4) > 32)
    ensures Outcome(q, qlen, slen, net, max, c0, c0, None) == true
  {
  }

  method CopyRequest(req: array<byte>, res: array<byte>, qlen: nat)
    requires req != res && qlen <= req.Length && qlen <= res.Length
    modifies res
    ensures res[..qlen] == req[..qlen]
  {
    forall i | 0 <= i < qlen {
      res[i] := req[i];
    }
  }

  method Count(req: array<byte>) returns (n: nat)
    requires 12 <= req.Length
    ensures n == U16(req[..], 4)
  {
    n := U16([req[4], req[5]], 0);
  }

  lemma FilledPrefix(was: Bytes, now: Bytes, off: nat, n: nat)
    requires 12 <= off <= |was| && n <= 32
    requires now == Respond(was, n)
    ensures var r := was[..off];
      |now| == |was| && now[..off] == Respond(r, n)
  {
    var r := was[..off];
    assert U16(r, 2) == U16(was, 2);
    hide Flags, BE16;
    var h := was[..2] + BE16(Flags(U16(was, 2))) + was[4..6] + BE16(n) + [0, 0, 0, 0];
    assert |h| == 12 && (h + was[12..])[..off] == h + was[12..off];
    PrefixSlice(was, off, 0, 2);
    PrefixSlice(was, off, 4, 6);
    PrefixSlice(was, off, 12, off);
  }

  lemma PrefixSlice(b: Bytes, off: nat, i: nat, j: nat)
    requires i <= j <= off <= |b|
    ensures b[..off][i..j] == b[i..j]
  {
  }

  lemma ReadPrefix(q: Bytes, qlen: nat, res: Bytes, end: nat)
    requires qlen <= |q| && qlen <= |res| && res[..qlen] == q[..qlen] && end <= qlen
    ensures res[..end] == q[..end]
  {
    assert res[..end] == res[..qlen][..end] && q[..end] == q[..qlen][..end];
  }

  method Finish(res: array<byte>, end: nat, slen: nat, ips: array<Word>, ipo: array<nat>, ipn: nat, ghost q: Bytes) returns (r: int)
    requires 12 <= end <= slen <= res.Length && ipn <= 32 && ips.Length == ipo.Length == 32 && end <= |q| && res[..end] == q[..end]
    modifies res
    ensures r == if end + 16 * ipn > slen then -1 else end + 16 * ipn
    ensures r >= 0 ==> r <= res.Length && res[..r] == Respond(q[..end] + Rows(ipo[..ipn], ips[..ipn]), ipn)
  {
    var ok, off := WriteAnswers(res, end, slen, ips, ipo, ipn);
    if !ok {
      return -1;
    }
    ghost var was := res[..];
    FillHeader(res, ipn);
    FilledPrefix(was, res[..], off, ipn);
    return off;
  }

  /** The reply to a request, if it gets one. */
  method Handle(self: MappedDNS, req: array<byte>, qlen: nat, res: array<byte>, slen: nat) returns (r: int)
    requires self.Valid() == true && 1 <= self.max <= Signed(Not(self.mask)) && req != res
    requires 12 <= qlen <= req.Length && slen <= res.Length
    requires slen < qlen || U16(req[..], 4) > 32 || Inside(req[..], qlen, U16(req[..], 4))
    modifies req, res, self`use, self`items, self.tree, self.tree.mem.Keys, self.list, self.list.repr, self.records
    ensures self.Valid() == true && -1 <= r <= slen
    ensures Outcome(old(req[..]), qlen, slen, self.net, self.max, old(self.Abs()), self.Abs(), if r < 0 then None else Some(res[..r])) == true
    ensures Elems(self.Abs().lru) == Elems(self.Abs().slots)
    ensures Promise(old(req[..]), qlen, slen, self.net, self.mask, self.max, self.Abs(), if r < 0 then None else Some(res[..r])) == true
  {
    hide *;
    ghost var (q, c0) := (req[..], self.Abs());
    Limits(self);
    var n := Count(req);
    if slen < qlen {
      NoOutcome(q, qlen, slen, self.net, self.max, c0);
      PromiseKept(q, qlen, slen, self.net, self.mask, self.max, c0, c0, None);
      return -1;
    }
    CopyRequest(req, res, qlen);
    if n > 32 {
      NoOutcome(q, qlen, slen, self.net, self.max, c0);
      PromiseKept(q, qlen, slen, self.net, self.mask, self.max, c0, c0, None);
      return -1;
    }
    var ips, ipo := new Word[32], new nat[32];
    var ok, end, ipn;
    ghost var done;
    ok, end, ipn, done := ReadQuestions(self, req, qlen, n, ips, ipo);
    ghost var (starts, addresses) := (ipo[..ipn], ips[..ipn]);
    if !ok {
      r := -1;
    } else {
      ReadPrefix(q, qlen, res[..], end);
      r := Finish(res, end, slen, ips, ipo, ipn, q);
    }
    OutcomeIs(q, qlen, slen, self.net, self.max, c0, self.Abs(), done, ok, end, starts, addresses, if r < 0 then None else Some(res[..r]));
    PromiseKept(q, qlen, slen, self.net, self.mask, self.max, c0, self.Abs(), if r < 0 then None else Some(res[..r]));
  }
}
