/** IPv4 addresses that stand for LON addresses (ipv4_to_lon_udp.c, without the IPv6 branches). */
module LonAddress {
  import opened Bytes

  type Ip = s: seq<byte> | |s| == 4 witness [0, 0, 0, 0]

  /** The first two bytes of the addresses of a domain; `GenerateLonUdpAddrPrefix`. */
  function Prefix(domain: seq<byte>): (p: seq<byte>)
    ensures |p| == 2
  {
    if domain == [] || |domain| > 6 then [192, 168]
    else if |domain| == 1 then [10, domain[0]]
    else domain[..2]
  }

  /** The address derived from a domain, subnet and node; `GenerateLonUdpAddress`. */
  function DerivedAddress(domain: seq<byte>, subnet: byte, node: byte): Ip {
    var n := if |domain| > 6 then 0 else node % 128;
    Prefix(if subnet == 0 || n == 0 then [] else domain) + [subnet, n]
  }

  /** `GenerateLonMulticastAddr` */
  function MulticastAddress(group: bool, subnetOrGroup: byte): Ip {
    [239, 192, if group then 1 else 0, subnetOrGroup]
  }

  /** How the receiving side reads a domain off an address. */
  function DomainOfIp(ip: Ip): seq<byte> {
    if ip[..2] == [192, 168] then []
    else if ip[0] == 10 then [ip[1]]
    else ip[..2] + [0]
  }

  /** The domains that IPv4 addresses can carry: 0, 1 or 3 bytes, the third being 0. */
  predicate Mappable(domain: seq<byte>) {
    |domain| <= 1 || (|domain| == 3 && domain[2] == 0)
  }

  /** A 3-byte domain that looks like one of the two reserved prefixes. */
  predicate Clashes(domain: seq<byte>) {
    |domain| == 3 && (domain[..2] == [192, 168] || domain[0] == 10)
  }

  lemma PrefixNamesDomain(domain: seq<byte>, ip: Ip)
    requires |domain| in {0, 1, 3} && ip[..2] == Prefix(domain)
    ensures DomainOfIp(ip) == domain <==> Mappable(domain) && !Clashes(domain)
  {
    assert ip[0] == ip[..2][0] && ip[1] == ip[..2][1];
    if |domain| == 3 && !Clashes(domain) {
      assert domain == domain[..2] + [domain[2]];
    }
  }

  /** A derived address names its domain exactly for domains that addresses can carry, outside the reserved
      prefixes, and, unless the domain is the zero-length one, for a real subnet and node. */
  lemma DerivedNamesDomainIff(domain: seq<byte>, subnet: byte, node: byte)
    requires |domain| in {0, 1, 3}
    ensures DomainOfIp(DerivedAddress(domain, subnet, node)) == domain <==>
      Mappable(domain) && !Clashes(domain) && (domain == [] || (subnet != 0 && node % 128 != 0))
  {
    var ip := DerivedAddress(domain, subnet, node);
    if subnet != 0 && node % 128 != 0 {
      assert ip[..2] == Prefix(domain);
      PrefixNamesDomain(domain, ip);
    } else {
      assert ip[..2] == [192, 168];
    }
  }

  /** Broadcast and group addresses differ from each other, and meet a derived address exactly in the domain
      EF C0, for groups at subnet 1. */
  lemma MulticastMeetsIff(group: bool, x: byte, group': bool, x': byte, domain: seq<byte>, subnet: byte, node: byte)
    ensures MulticastAddress(group, x) == MulticastAddress(group', x') <==> group == group' && x == x'
    ensures MulticastAddress(group, x) == DerivedAddress(domain, subnet, node) <==>
      2 <= |domain| <= 6 && domain[..2] == [239, 192] && group && subnet == 1 && x == node % 128 != 0
  {
    var m, m', d := MulticastAddress(group, x), MulticastAddress(group', x'), DerivedAddress(domain, subnet, node);
    assert m == m' ==> m[2] == m'[2] && m[3] == m'[3];
    assert d[..2] + d[2..] == d && m[..2] + m[2..] == m && m[..2] == [239, 192];
    assert m == d ==> m[..2] == d[..2] && m[2] == d[2] && m[3] == d[3];
  }
}
