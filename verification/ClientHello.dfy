/** Finding the server name in a TLS ClientHello (section 4.1.2 of RFC 8446, section 3 of RFC 6066). */
module ClientHello {
  import opened ByteOrder
  import opened Wire

  /** An extension: its type and its data. */
  datatype Ext = Ext(kind: nat, body: Bytes)

  predicate SaneExt(e: Ext) { e.kind < 65536 && |e.body| < 65536 }

  function EncodeExt(e: Ext): Bytes
    requires SaneExt(e)
  {
    BE16(e.kind) + BE16(|e.body|) + e.body
  }

  ghost function EncodeExts(es: seq<Ext>): Bytes
    requires forall e <- es :: SaneExt(e)
  {
    if es == [] then [] else EncodeExt(es[0]) + EncodeExts(es[1..])
  }

  /** Where the first extension of a type starts, counted from the first extension; -1 if there is none. */
  ghost function Place(es: seq<Ext>, kind: nat): int {
    if es == [] then -1
    else if es[0].kind == kind then 0
    else if Place(es[1..], kind) < 0 then -1
    else 4 + |es[0].body| + Place(es[1..], kind)
  }

  /** The scan over the extensions. */
  function Scan(kind: nat, b: Bytes, skip: nat, size: nat): (r: nat)
    requires size <= |b|
    decreases size - skip
  {
    if skip + 4 >= size then 0 else if U16(b, skip) == kind then skip else Scan(kind, b, skip + U16(b, skip + 2) + 4, size)
  }

  // ---------------------------------------------------------------- the code

  method FindTlsExtOffset(kind: nat, data: Bytes, size0: nat, skip0: nat) returns (r: nat)
    requires size0 <= |data|
    ensures r == ScanFrom(kind, data, size0, skip0)
  {
    var size: nat := size0;
    var skip: nat := skip0;
    if size <= skip + 2 {
      return 0;
    }
    var extLen := U16(data, skip);
    skip := skip + 2;
    if extLen < size - skip {
      size := extLen + skip;
    }
    while skip + 4 < size
      invariant Scan(kind, data, skip, size) == ScanFrom(kind, data, size0, skip0)
      decreases size - skip
    {
      var epyt := U16(data, skip);
      if kind == epyt {
        return skip;
      }
      var len := U16(data, skip + 2);
      skip := skip + (len + 4);
    }
    return 0;
  }

  /** The scan behind the total length of the extensions. */
  function ScanFrom(kind: nat, data: Bytes, size: nat, skip: nat): nat
    requires size <= |data|
  {
    if size <= skip + 2 then 0 else
    var end := skip + 2 + U16(data, skip);
    Scan(kind, data, skip + 2, if end < size then end else size)
  }

  method ChelloExtOffset(kind: nat, data: Bytes, size: nat) returns (r: nat)
    requires size <= |data|
    ensures r == ExtOffset(kind, data, size)
  {
    if size < 44 {
      return 0;
    }
    var sidLen: nat := data[43];
    if size < 44 + sidLen + 2 {
      return 0;
    }
    var cipLen := U16(data, 44 + sidLen);
    var skip := 44 + sidLen + 2 + cipLen + 2;
    r := FindTlsExtOffset(kind, data, size, skip);
  }

  function ExtOffset(kind: nat, data: Bytes, size: nat): nat
    requires size <= |data|
  {
    if size < 44 then 0 else
    var sid: nat := data[43];
    if size < 44 + sid + 2 then 0 else ScanFrom(kind, data, size, 44 + sid + 2 + U16(data, 44 + sid) + 2)
  }

  method IsTlsChello(buffer: Bytes, bsize: nat) returns (r: bool)
    requires bsize <= |buffer|
    ensures r == IsChello(buffer, bsize)
  {
    r := bsize > 5 && U16(buffer, 0) == 0x1603 && buffer[5] == 0x01;
  }

  predicate IsChello(buffer: Bytes, bsize: nat)
    requires bsize <= |buffer|
  {
    bsize > 5 && buffer[..2] == [0x16, 0x03] && buffer[5] == 0x01
  }

  /** The length of the host name and where it starts; 0 if there is none. */
  method ParseTls(buffer: Bytes, bsize: nat) returns (len: nat, hs: nat)
    requires bsize <= |buffer|
    ensures (len, hs) == Parsed(buffer, bsize) && hs + len <= bsize
  {
    var is_ := IsTlsChello(buffer, bsize);
    if !is_ {
      return 0, 0;
    }
    var sniOffs := ChelloExtOffset(0x00, buffer, bsize);
    if sniOffs == 0 || sniOffs + 12 >= bsize {
      return 0, 0;
    }
    len := U16(buffer, sniOffs + 7);
    if sniOffs + 9 + len > bsize {
      return 0, 0;
    }
    hs := sniOffs + 9;
  }

  function Parsed(buffer: Bytes, bsize: nat): (nat, nat)
    requires bsize <= |buffer|
  {
    var sni := ExtOffset(0, buffer, bsize);
    if !IsChello(buffer, bsize) || sni == 0 || sni + 12 >= bsize || sni + 9 + U16(buffer, sni + 7) > bsize then (0, 0)
    else (U16(buffer, sni + 7), sni + 9)
  }

  // ---------------------------------------------------------------- a ClientHello

  /**
   A ClientHello in its record: the record header up to the session id, the session id, the cipher
   suites, one compression method, and the extensions.
   */
  datatype Hello = Hello(lead: Bytes, sid: Bytes, ciphers: Bytes, compression: byte, exts: seq<Ext>)

  ghost predicate SaneHello(h: Hello) {
    && |h.lead| == 43 && h.lead[..2] == [0x16, 0x03] && h.lead[5] == 0x01
    && |h.sid| < 256 && |h.ciphers| < 65536
    && (forall e <- h.exts :: SaneExt(e)) && |EncodeExts(h.exts)| < 65536
  }

  /** Everything before the extensions. */
  ghost function Front(h: Hello): (b: Bytes)
    requires SaneHello(h)
    ensures |b| == 50 + |h.sid| + |h.ciphers|
  {
    h.lead + [|h.sid|] + h.sid + BE16(|h.ciphers|) + h.ciphers + [1, h.compression] + BE16(|EncodeExts(h.exts)|)
  }

  ghost function Encode(h: Hello): Bytes
    requires SaneHello(h)
  {
    Front(h) + EncodeExts(h.exts)
  }

  /** The data of a server_name extension that names `host`. */
  function SniBody(host: Bytes): Bytes
    requires |host| + 5 < 65536
  {
    BE16(|host| + 3) + [0] + BE16(|host|) + host
  }

  /** A prefix of a well-formed stretch reads the same numbers. */
  lemma ReadAt(b: Bytes, a: Bytes, x: nat, c: Bytes, k: nat)
    requires x < 65536 && k <= |a + BE16(x) + c| && b == (a + BE16(x) + c)[..k] && |a| + 2 <= k
    ensures U16(b, |a|) == x
  {
    var w := a + BE16(x) + c;
    assert b[|a|] == w[|a|] == BE16(x)[0] && b[|a| + 1] == w[|a| + 1] == BE16(x)[1];
  }

  /** The scan finds the first extension of the type, if its header is inside and something follows it. */
  lemma {:induction false} ScanFinds(kind: nat, pre: Bytes, es: seq<Ext>, tail: Bytes, k: nat, size: nat)
    requires (forall e <- es :: SaneExt(e)) && k <= |pre + EncodeExts(es) + tail| && size <= k && size <= |pre| + |EncodeExts(es)|
    ensures var p := Place(es, kind);
      Scan(kind, (pre + EncodeExts(es) + tail)[..k], |pre|, size) == if p >= 0 && |pre| + p + 4 < size then |pre| + p else 0
    decreases |es|
  {
    var b := (pre + EncodeExts(es) + tail)[..k];
    if es != [] && |pre| + 4 < size {
      var (e, rest) := (es[0], EncodeExts(es[1..]));
      var after := BE16(|e.body|) + e.body + rest + tail;
      Regroup(pre, e, rest, tail);
      ReadAt(b, pre, e.kind, after, k);
      ReadAt(b, pre + BE16(e.kind), |e.body|, e.body + rest + tail, k);
      if e.kind != kind {
        PlaceBound(es[1..], kind);
        if |pre + EncodeExt(e)| <= size {
          ScanFinds(kind, pre + EncodeExt(e), es[1..], tail, k, size);
        } else {
          ScanPast(kind, b, |pre + EncodeExt(e)|, size);
        }
      }
    } else {
      PlaceBound(es, kind);
    }
  }

  lemma ScanPast(kind: nat, b: Bytes, skip: nat, size: nat)
    requires size <= |b| && skip + 4 >= size
    ensures Scan(kind, b, skip, size) == 0
  {
  }

  lemma PlaceBound(es: seq<Ext>, kind: nat)
    ensures Place(es, kind) >= -1
  {
  }

  lemma Regroup(pre: Bytes, e: Ext, rest: Bytes, tail: Bytes)
    requires SaneExt(e)
    ensures var w := pre + (EncodeExt(e) + rest) + tail;
      && w == pre + BE16(e.kind) + (BE16(|e.body|) + e.body + rest + tail)
      && w == (pre + BE16(e.kind)) + BE16(|e.body|) + (e.body + rest + tail)
      && w == (pre + EncodeExt(e)) + rest + tail
  {
  }

  /** The extension that is found, between the ones before and the ones after it. */
  lemma {:induction false} PlaceSplits(es: seq<Ext>, kind: nat) returns (x: Bytes, e: Ext, y: Bytes)
    requires (forall e <- es :: SaneExt(e)) && Place(es, kind) >= 0
    ensures e in es && e.kind == kind && SaneExt(e) && |x| == Place(es, kind) && EncodeExts(es) == x + EncodeExt(e) + y
    ensures First(es, kind) == e
    decreases |es|
  {
    if es[0].kind == kind {
      x, e, y := [], es[0], EncodeExts(es[1..]);
      assert [] + EncodeExt(e) + y == EncodeExt(e) + y;
    } else {
      x, e, y := PlaceSplits(es[1..], kind);
      assert EncodeExt(es[0]) + (x + EncodeExt(e) + y) == (EncodeExt(es[0]) + x) + EncodeExt(e) + y;
      x := EncodeExt(es[0]) + x;
    }
  }

  /** The first extension of a type. */
  ghost function First(es: seq<Ext>, kind: nat): Ext
    requires Place(es, kind) >= 0
  {
    if es[0].kind == kind then es[0] else First(es[1..], kind)
  }

  /** The places of the lengths before the extensions. */
  lemma FrontReads(h: Hello, tail: Bytes, k: nat)
    requires SaneHello(h) && k <= |Encode(h) + tail|
    ensures var b := (Encode(h) + tail)[..k];
      && (k > 5 ==> b[..2] == [0x16, 0x03] && b[5] == 0x01)
      && (k >= 44 ==> b[43] == |h.sid|)
      && (k >= 46 + |h.sid| ==> U16(b, 44 + |h.sid|) == |h.ciphers|)
      && (k >= |Front(h)| ==> U16(b, |Front(h)| - 2) == |EncodeExts(h.exts)|)
  {
    FrontSplits(h, tail);
    var (b, es) := ((Encode(h) + tail)[..k], EncodeExts(h.exts));
    var p1 := h.lead + [|h.sid|] + h.sid;
    var p2 := p1 + BE16(|h.ciphers|) + h.ciphers + [1, h.compression];
    hide Encode, EncodeExts, BE16, U16;
    if k > 5 {
      LeadAt(b, h.lead, [|h.sid|] + (h.sid + BE16(|h.ciphers|) + h.ciphers + [1, h.compression] + BE16(|es|) + es + tail), k);
    }
    if k >= 44 {
      SliceAt(b, h.lead, [|h.sid|], h.sid + BE16(|h.ciphers|) + h.ciphers + [1, h.compression] + BE16(|es|) + es + tail, k);
      assert b[43..][..1][0] == b[43];
    }
    if k >= 46 + |h.sid| {
      ReadAt(b, p1, |h.ciphers|, h.ciphers + [1, h.compression] + BE16(|es|) + es + tail, k);
    }
    if k >= |Front(h)| {
      ReadAt(b, p2, |es|, es + tail, k);
    }
  }

  /** The record, cut at each of the lengths. */
  lemma FrontSplits(h: Hello, tail: Bytes)
    requires SaneHello(h)
    ensures var (w, es) := (Encode(h) + tail, EncodeExts(h.exts));
      var p1 := h.lead + [|h.sid|] + h.sid;
      && w == h.lead + ([|h.sid|] + (h.sid + BE16(|h.ciphers|) + h.ciphers + [1, h.compression] + BE16(|es|) + es + tail))
      && w == h.lead + [|h.sid|] + (h.sid + BE16(|h.ciphers|) + h.ciphers + [1, h.compression] + BE16(|es|) + es + tail)
      && w == p1 + BE16(|h.ciphers|) + (h.ciphers + [1, h.compression] + BE16(|es|) + es + tail)
      && w == (p1 + BE16(|h.ciphers|) + h.ciphers + [1, h.compression]) + BE16(|es|) + (es + tail)
  {
    hide EncodeExts, BE16;
  }

  lemma LeadAt(b: Bytes, lead: Bytes, c: Bytes, k: nat)
    requires k <= |lead + c| && b == (lead + c)[..k] && 5 < k && |lead| > 5
    ensures b[..2] == lead[..2] && b[5] == lead[5]
  {
  }

  /** A complete part of a prefix. */
  lemma SliceAt(b: Bytes, a: Bytes, x: Bytes, c: Bytes, k: nat)
    requires k <= |a + x + c| && b == (a + x + c)[..k] && |a| + |x| <= k
    ensures b[|a|..][..|x|] == x
  {
  }

  /** In any prefix of the record, the offset of the extension is found as soon as its header and one byte more are there. */
  lemma OffsetFinds(h: Hello, tail: Bytes, k: nat, kind: nat)
    requires SaneHello(h) && k <= |Encode(h) + tail|
    ensures var (b, p) := ((Encode(h) + tail)[..k], Place(h.exts, kind));
      var end := |Front(h)| + |EncodeExts(h.exts)|;
      ExtOffset(kind, b, k) == if p >= 0 && |Front(h)| + p + 4 < (if end < k then end else k) then |Front(h)| + p else 0
  {
    FrontReads(h, tail, k);
    PlaceBound(h.exts, kind);
    hide EncodeExts, Place, Scan, BE16, U16;
    var b := (Encode(h) + tail)[..k];
    var end := |Front(h)| + |EncodeExts(h.exts)|;
    if |Front(h)| < k {
      ScanFinds(kind, Front(h), h.exts, tail, k, if end < k then end else k);
    }
  }

  /**
   Of a ClientHello whose first server_name extension names `host`, any prefix at all (and anything
   behind it) is parsed to exactly that host name, once the name is complete and more than twelve
   bytes of the extension are there; otherwise no name is found.
   */
  lemma ParseFindsHost(h: Hello, tail: Bytes, k: nat, host: Bytes)
    requires SaneHello(h) && k <= |Encode(h) + tail| && |host| + 5 < 65536
    requires Place(h.exts, 0) >= 0 && First(h.exts, 0).body == SniBody(host)
    ensures var b := (Encode(h) + tail)[..k];
      var at := |Front(h)| + Place(h.exts, 0);
      && Parsed(b, k) == (if at + 12 < k && at + 9 + |host| <= k then (|host|, at + 9) else (0, 0))
      && (at + 9 + |host| <= k ==> b[at + 9..][..|host|] == host)
  {
    hide *;
    FrontReads(h, tail, k);
    FrontSize(h);
    PlaceBound(h.exts, 0);
    OffsetFinds(h, tail, k, 0);
    EncodeIs(h);
    var x, e, y := PlaceSplits(h.exts, 0);
    SniReads(Front(h), x, e, y, tail, host, k);
    var at: nat := |Front(h)| + Place(h.exts, 0);
    var end := |Front(h)| + |EncodeExts(h.exts)|;
    ParsedAt((Encode(h) + tail)[..k], k, at, |host|, if end < k then end else k);
  }

  /** No name is found in a ClientHello without the extension, nor in what does not start like a handshake record with a ClientHello. */
  lemma NoHost(h: Hello, tail: Bytes, k: nat, b: Bytes, size: nat)
    requires size <= |b| && !(size > 5 && b[0] == 22 && b[1] == 3 && b[5] == 1)
    requires SaneHello(h) && k <= |Encode(h) + tail| && Place(h.exts, 0) < 0
    ensures Parsed(b, size) == (0, 0) && Parsed((Encode(h) + tail)[..k], k) == (0, 0)
  {
    assert size > 5 ==> b[..2][0] == b[0] && b[..2][1] == b[1];
    OffsetFinds(h, tail, k, 0);
  }

  lemma EncodeIs(h: Hello)
    requires SaneHello(h)
    ensures Encode(h) == Front(h) + EncodeExts(h.exts) && forall e <- h.exts :: SaneExt(e)
  {
  }

  lemma FrontSize(h: Hello)
    requires SaneHello(h)
    ensures |Front(h)| >= 50
  {
  }

  /** What parse_tls makes of the offset. */
  lemma ParsedAt(b: Bytes, k: nat, at: nat, n: nat, size: nat)
    requires k <= |b| && at >= 50 && size <= k && (size < k ==> at + 9 + n <= size)
    requires k > 5 ==> b[..2] == [0x16, 0x03] && b[5] == 0x01
    requires ExtOffset(0, b, k) == if at + 4 < size then at else 0
    requires at + 9 <= k ==> U16(b, at + 7) == n
    ensures Parsed(b, k) == if at + 12 < k && at + 9 + n <= k then (n, at + 9) else (0, 0)
  {
  }

  lemma SniReads(front: Bytes, x: Bytes, e: Ext, y: Bytes, tail: Bytes, host: Bytes, k: nat)
    requires SaneExt(e) && |host| + 5 < 65536 && e.body == SniBody(host) && k <= |front + (x + EncodeExt(e) + y) + tail|
    ensures var (b, at) := ((front + (x + EncodeExt(e) + y) + tail)[..k], |front| + |x|);
      && at + 9 + |host| <= |front| + |x + EncodeExt(e) + y|
      && (at + 9 <= k ==> U16(b, at + 7) == |host|) && (at + 9 + |host| <= k ==> b[at + 9..][..|host|] == host)
  {
    var w := front + (x + EncodeExt(e) + y) + tail;
    var (b, pre) := (w[..k], front + x + BE16(e.kind) + BE16(|e.body|) + BE16(|host| + 3) + [0]);
    assert w == pre + BE16(|host|) + (host + y + tail);
    if |pre| + 2 <= k {
      ReadAt(b, pre, |host|, host + y + tail, k);
    }
    if |pre| + 2 + |host| <= k {
      assert w == (pre + BE16(|host|)) + host + (y + tail);
      SliceAt(b, pre + BE16(|host|), host, y + tail, k);
    }
  }
}
