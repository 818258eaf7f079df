/** The addresses of SOCKS5 (section 5 of RFC 1928) and how they are laid out. */
module Socks5Addr {
  import opened ByteOrder
  import opened Options

  const IPV4: byte := 1
  const NAME: byte := 3
  const IPV6: byte := 4

  /** An address and a port in network order, as they travel. */
  datatype Addr = Ipv4(ip: Bytes, port: Bytes) | Ipv6(ip: Bytes, port: Bytes) | Name(host: Bytes, port: Bytes)

  /** What fits the fields of `HevSocks5Addr`. */
  predicate Sane(a: Addr) {
    && |a.port| == 2
    && match a {
         case Ipv4(ip, _) => |ip| == 4
         case Ipv6(ip, _) => |ip| == 16
         case Name(host, _) => |host| <= 255
       }
  }

  function Encode(a: Addr): (b: Bytes)
    requires Sane(a)
  {
    match a
    case Ipv4(ip, port) => [IPV4] + ip + port
    case Ipv6(ip, port) => [IPV6] + ip + port
    case Name(host, port) => [NAME, |host|] + host + port
  }

  /** hev_socks5_addr_len: from the type and the byte after it, the length of the whole; -1 for an unknown type. */
  function AddrLen(atype: byte, len: byte): (n: int)
    ensures n == -1 || 4 <= n <= 259
  {
    if atype == IPV4 then 7 else if atype == IPV6 then 19 else if atype == NAME then 4 + len else -1
  }

  /** The address in the first bytes of `b`. */
  function Decode(b: Bytes): (a: Option<Addr>)
    ensures a.Some? ==> Sane(a.value)
  {
    if |b| < 2 || AddrLen(b[0], b[1]) < 0 || |b| < AddrLen(b[0], b[1]) then None
    else if b[0] == IPV4 then Some(Ipv4(b[1..5], b[5..7]))
    else if b[0] == IPV6 then Some(Ipv6(b[1..17], b[17..19]))
    else Some(Name(b[2..2 + b[1]], b[2 + b[1]..4 + b[1]]))
  }

  /** addr_len finds the end of an address that anything may follow, and decoding gives the address back. */
  lemma EncodeDecodes(a: Addr, rest: Bytes)
    requires Sane(a)
    ensures var b := Encode(a) + rest;
      |Encode(a)| >= 4 && AddrLen(b[0], b[1]) == |Encode(a)| && Decode(b) == Some(a)
  {
    var b := Encode(a) + rest;
    match a {
      case Ipv4(ip, port) => assert b[1..5] == ip && b[5..7] == port;
      case Ipv6(ip, port) => assert b[1..17] == ip && b[17..19] == port;
      case Name(host, port) => assert b[2..2 + |host|] == host && b[2 + |host|..4 + |host|] == port;
    }
  }

  /** And what was decoded encodes to the bytes it came from. */
  lemma DecodeEncodes(b: Bytes)
    requires Decode(b).Some?
    ensures Encode(Decode(b).value) == b[..AddrLen(b[0], b[1])]
  {
    var a := Decode(b).value;
    match a {
      case Ipv4(ip, port) => assert b[..7] == [b[0]] + b[1..5] + b[5..7];
      case Ipv6(ip, port) => assert b[..19] == [b[0]] + b[1..17] + b[17..19];
      case Name(host, port) =>
        var n := b[1];
        assert b[..4 + n] == [b[0], b[1]] + b[2..2 + n] + b[2 + n..4 + n];
    }
  }

  // ---------------------------------------------------------------- socket addresses

  /** `struct sockaddr_in6`: an IPv6 address and a port in network order. */
  datatype SockAddr = SockAddr(ip: Bytes, port: Bytes)

  predicate SaneSock(s: SockAddr) { |s.ip| == 16 && |s.port| == 2 }

  const MAPPED: Bytes := [0, 0, 0, 0, 0, 0, 0, 0, 0, 0, 255, 255]

  /** IN6_IS_ADDR_V4MAPPED */
  predicate IsMapped(s: SockAddr)
    requires SaneSock(s)
  {
    s.ip[..12] == MAPPED
  }

  /** hev_socks5_addr_from_sockaddr6 */
  function FromSock(s: SockAddr): (a: Addr)
    requires SaneSock(s)
    ensures Sane(a) && !a.Name?
  {
    if IsMapped(s) then Ipv4(s.ip[12..16], s.port) else Ipv6(s.ip, s.port)
  }

  /** hev_socks5_addr_into_sockaddr6, for the types that need no resolver. */
  function IntoSock(a: Addr): (s: SockAddr)
    requires Sane(a) && !a.Name?
    ensures SaneSock(s)
  {
    if a.Ipv4? then SockAddr(MAPPED + a.ip, a.port) else SockAddr(a.ip, a.port)
  }

  /** A socket address keeps its address, except that an IPv6 address with the mapped prefix comes back as IPv4. */
  lemma SockRoundTrip(a: Addr)
    requires Sane(a) && !a.Name?
    ensures FromSock(IntoSock(a)) == a <==> a.Ipv4? || !IsMapped(IntoSock(a))
    ensures IsMapped(IntoSock(a)) ==> FromSock(IntoSock(a)) == Ipv4(IntoSock(a).ip[12..16], a.port)
  {
    if a.Ipv4? {
      assert (MAPPED + a.ip)[..12] == MAPPED && (MAPPED + a.ip)[12..16] == a.ip;
    }
  }

  lemma SockBack(s: SockAddr)
    requires SaneSock(s)
    ensures IntoSock(FromSock(s)) == s
  {
    if IsMapped(s) {
      assert s.ip == s.ip[..12] + s.ip[12..16];
    }
  }
}
