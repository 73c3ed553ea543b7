/** The two conversions of ipv4_to_lon_udp.c on their buffers: one rewrites the NPDU in place, the other
    reads the payload and writes an NPDU, and tells the mapping cache what it learned. */
module LonUdpLink {
  import opened Bytes
  import opened LonAddress
  import opened AddressMapping
  import opened NetworkPdu
  import opened LonUdp

  // ------------------------------------------------------------------
  // Reading an NPDU
  // ------------------------------------------------------------------

  /** Where the domain starts. */
  function DomainOffset(b: seq<byte>): nat
    requires |b| >= 4
  {
    match b[1] / 4 % 4
    case 0 => 5
    case 1 => 5
    case 2 => if b[3] >= 128 then 6 else 8
    case _ => 11
  }

  function PduOffset(b: seq<byte>): nat
    requires |b| >= 4
  {
    DomainOffset(b) + DecodeDomainLength(b[1] % 4)
  }

  /** The message in a buffer that holds a whole header. */
  function MessageIn(b: seq<byte>): Vx
    requires |b| >= 4 && |b| >= PduOffset(b)
  {
    var dest := match b[1] / 4 % 4
                case 0 => Broadcast(b[4])
                case 1 => Multicast(b[4])
                case 2 => if b[3] >= 128 then SubnetNode(b[4], b[5]) else MulticastAck(b[4], b[5], b[6], b[7])
                case _ => UniqueNodeId(b[4], b[5..11]);
    var domain := b[DomainOffset(b)..PduOffset(b)];
    assert |domain| == DecodeDomainLength(b[1] % 4) && |domain| in {0, 1, 3, 6};
    Vx(b[0], b[1] / 64, b[1] / 16 % 4, b[2], b[3], dest, domain, b[PduOffset(b)..])
  }

  /** Reading is inverse to writing. */
  lemma MessageInBytes(m: Vx)
    ensures var b := VxBytes(m);
      |b| >= 4 && |b| >= PduOffset(b) && MessageIn(b) == m.(dest := OnWire(m.dest))
  {
    var b, d := VxBytes(m), DestBytes(m.dest);
    BytesRead(m);
    assert b == b[..4] + d + m.domain + m.pdu;
    FourPieces(b, d, m.domain, m.pdu);
    hide VxBytes, FirstByte, EncodeDomainLength, DecodeDomainLength;
    if m.dest.UniqueNodeId? { assert b[5..11] == d[1..7]; }
  }

  lemma BytesRead(m: Vx)
    ensures var b := VxBytes(m);
      && |b| >= 4 && b[0] == m.first && b[2] == m.srcSubnet && b[3] == m.srcNode
      && b[1] / 64 == m.version && b[1] / 16 % 4 == m.pduType && b[1] / 4 % 4 == Format(m.dest)
      && DecodeDomainLength(b[1] % 4) == |m.domain|
      && b == b[..4] + DestBytes(m.dest) + m.domain + m.pdu
  {
    DomainLengthsRoundTrip(|m.domain|, 0);
    var code := EncodeDomainLength(|m.domain|);
    FirstByteFields(m.version, m.pduType, Format(m.dest), code);
    hide FirstByte, EncodeDomainLength, DecodeDomainLength, DestBytes, Format;
    assert VxBytes(m) == [m.first, FirstByte(m.version, m.pduType, Format(m.dest), code), m.srcSubnet, m.srcNode]
      + DestBytes(m.dest) + m.domain + m.pdu;
    hide VxBytes;
  }

  lemma FourPieces(b: seq<byte>, d: seq<byte>, domain: seq<byte>, pdu: seq<byte>)
    requires |b| >= 4 && b == b[..4] + d + domain + pdu
    ensures b[4..4 + |d|] == d && b[4 + |d|..4 + |d| + |domain|] == domain && b[4 + |d| + |domain|..] == pdu
    ensures forall k :: 4 <= k < 4 + |d| ==> b[k] == d[k - 4]
  {}

  // ------------------------------------------------------------------
  // Buffers
  // ------------------------------------------------------------------

  /** `memmove` within a buffer. */
  method Move(a: array<byte>, to: nat, from: nat, n: nat)
    requires to + n <= a.Length && from + n <= a.Length
    modifies a
    ensures a[to..to + n] == old(a[from..from + n])
    ensures a[..to] == old(a[..to])
  {
    forall k | 0 <= k < n { a[to + k] := a[from + k]; }
  }

  /** A field copied in at `k`, then the first `k` bytes overwritten, then a second field behind the first. */
  lemma Layers(s: seq<byte>, s1: seq<byte>, s2: seq<byte>, s3: seq<byte>, k: nat, head: seq<byte>, one: seq<byte>, two: seq<byte>)
    requires k + |one| + |two| <= |s| && |head| == k
    requires s1 == s[..k] + one + s[k + |one|..]
    requires s2 == head + s1[k..]
    requires s3 == s2[..k + |one|] + two + s2[k + |one| + |two|..]
    ensures s3 == head + one + two + s[k + |one| + |two|..]
  {
    assert s1[k..] == one + s[k + |one|..];
    assert s2[..k + |one|] == head + one && s2[k + |one| + |two|..] == s[k + |one|..][|two|..];
  }

  /** The new first bytes, from the old ones. */
  function HeaderBytes(first: byte, second: byte, byte1: byte, backlog: bool, source: bool): (b: seq<byte>)
    ensures |b| == 2 + Bit(backlog)
  {
    [Header0(second / 64, source), byte1] + if backlog then [first % 64] else []
  }

  // ------------------------------------------------------------------
  // Sending
  // ------------------------------------------------------------------

  lemma Slice(b: seq<byte>, at: nat, from: nat, to: nat)
    requires from <= to && at + to <= |b|
    ensures b[at..][from..to] == b[at + from..at + to] && b[at..][to..] == b[at + to..]
  {}

  class LonUdpLink {
    var host: Host
    var me: Me
    const mapping: MappingTable

    constructor (h: Host, own: Me)
      ensures mapping.Valid() && fresh(mapping) && fresh(mapping.lsMapInfo) && host == h && me == own
      ensures mapping.Table() == []
    {
      host, me := h, own;
      mapping := new MappingTable();
    }

    /** `Ipv4GetArbitrarySourceAddress`: the field for the payload, and the address to send from. */
    method GetArbitrarySource(m: Vx) returns (field: seq<byte>, ip: Ip)
      ensures field == SourceField(host, m) && ip == SourceIp(host, m)
    {
      ip := DerivedAddress(m.domain, m.srcSubnet, m.srcNode);
      field := [];
      if !host.connected { return; }
      if |m.domain| <= 1 || (|m.domain| == 3 && m.domain[2] == 0) {
        if host.ip != ip {
          var subnet, node := ip[2], ip[3] % 128;
          var prefix := DerivedAddress(m.domain, 1, 1);
          if host.ip[..2] == prefix[..2] {
            field := [subnet, node];
          } else {
            var code := 0;
            match |m.domain| {
              case 1 => code := 1;
              case 3 => code := 2;
              case _ =>
            }
            field := [subnet, node + 128, code] + m.domain;
          }
          ip := host.ip;
        }
      }
    }

    /** `Ipv4GetArbitraryDestAddress`, with the derived address to start from: the address to send to, and
        whether subnet and node must be in the payload. */
    method GetDestination(domain: seq<byte>, subnet: byte, node: byte) returns (to: Ip, included: bool)
      requires mapping.Valid() && |domain| <= 6
      ensures to == Destination(Cache(mapping.Table()), domain, subnet, node)
      ensures var c, key := Cache(mapping.Table()), KeyOf(domain, subnet, node);
        included <==> !(key in c && c[key].ByDerivation?)
    {
      to := DerivedAddress(domain, subnet, node);
      var i := mapping.FindMappingInfo(domain, subnet, node);
      ghost var t := mapping.Table();
      CacheHas(t, KeyOf(domain, subnet, node));
      included := i < 0 || mapping.lsMapInfo[i].state == Arbitrary;
      if i >= 0 { assert t[i] == mapping.lsMapInfo[i]; }
      hide Inv, Cache, KeyOf, DerivedAddress;
      if i < 0 {
        to := MulticastAddress(false, subnet);
      } else if mapping.lsMapInfo[i].state == Arbitrary {
        to := mapping.lsMapInfo[i].ip;
      }
    }

    /** The switch over the address format. */
    method PlanDest(m: Vx) returns (to: Ip, format: nat, backlog: bool, field: seq<byte>)
      requires mapping.Valid()
      ensures var c := Cache(mapping.Table());
        to == DestIp(c, m) && format == UdpFormat(c, m) && field == DestField(c, m) && backlog == WithBacklog(m)
    {
      ghost var c := Cache(mapping.Table());
      backlog := false;
      match m.dest {
        case Broadcast(s) =>
          to := MulticastAddress(false, s);
          backlog := m.pduType <= 1 && (if m.domain != [] then m.domain[|m.domain| - 1] else s) / 16 % 4 == 0;
          if s == 0 { format, field := UDP_DOMAIN_BROADCAST, []; } else { format, field := UDP_SUBNET_BROADCAST, [s]; }
        case Multicast(g) =>
          to := MulticastAddress(true, g);
          backlog := m.pduType <= 1 && (if m.domain != [] then m.domain[|m.domain| - 1] else g) / 16 % 4 == 0;
          format, field := UDP_GROUP, [g];
        case SubnetNode(s, n) =>
          var included;
          to, included := GetDestination(m.domain, s, n);
          hide Cache, KeyOf;
          if included { format, field := UDP_EXP_SUBNET_NODE, [s, n % 128]; } else { format, field := UDP_SUBNET_NODE, []; }
        case MulticastAck(s, n, g, k) =>
          var included;
          to, included := GetDestination(m.domain, s, n);
          hide Cache, KeyOf;
          if included { format, field := UDP_EXP_SUBNET_NODE, [s, n % 128]; } else { format, field := UDP_GROUP_RESP, []; }
          field := field + [g, k];
        case UniqueNodeId(s, uid) =>
          to := MulticastAddress(false, 0);
          format, field := UDP_BROADCAST_NEURON_ID, [s] + uid;
      }
    }

    /** The part that rewrites the buffer: the PDU moves to its new place first, the header follows. */
    method Rewrite(npdu: array<byte>, len: nat, start: nat, byte1: byte, backlog: bool, source: seq<byte>, dest: seq<byte>)
      returns (size: nat)
      requires 2 <= start <= len <= npdu.Length
      requires 2 + Bit(backlog) + |source| + |dest| + (len - start) <= npdu.Length
      modifies npdu
      ensures size == 2 + Bit(backlog) + |source| + |dest| + (len - start)
      ensures npdu[..size] == HeaderBytes(old(npdu[0]), old(npdu[1]), byte1, backlog, source != [])
        + source + dest + old(npdu[start..len])
    {
      var hdrLen := if backlog then 3 else 2;
      var pduAt := hdrLen + |source| + |dest|;
      ghost var pdu, first, second := npdu[start..len], npdu[0], npdu[1];
      Move(npdu, pduAt, start, len - start);
      size := pduAt + (len - start);
      assert npdu[0] == npdu[..pduAt][0] == first && npdu[1] == npdu[..pduAt][1] == second;
      assert npdu[pduAt..][..len - start] == pdu;
      hide HeaderBytes;
      WriteHeader(npdu, byte1, backlog, source, dest);
      assert npdu[..size] == npdu[..][..size];
    }

    method WriteHeader(npdu: array<byte>, byte1: byte, backlog: bool, source: seq<byte>, dest: seq<byte>)
      requires 2 + Bit(backlog) + |source| + |dest| <= npdu.Length
      modifies npdu
      ensures npdu[..] == HeaderBytes(old(npdu[0]), old(npdu[1]), byte1, backlog, source != [])
        + source + dest + old(npdu[2 + Bit(backlog) + |source| + |dest|..])
    {
      var hdrLen := if backlog then 3 else 2;
      ghost var k, s := hdrLen, npdu[..];
      PutSource(npdu, hdrLen, source);
      hdrLen := hdrLen + |source|;
      ghost var s1 := npdu[..];
      WriteFirst(npdu, byte1, backlog, source != []);
      ghost var s2 := npdu[..];
      CopyIn(npdu, hdrLen, dest);
      hide HeaderBytes;
      Layers(s, s1, s2, npdu[..], k, HeaderBytes(s[0], s[1], byte1, backlog, source != []), source, dest);
    }

    method PutSource(npdu: array<byte>, at: nat, source: seq<byte>)
      requires at + |source| <= npdu.Length
      modifies npdu
      ensures npdu[..] == old(npdu[..at]) + source + old(npdu[at + |source|..])
    {
      if source != [] { CopyIn(npdu, at, source); }
    }

    /** The first two bytes, and the backlog behind them. */
    method WriteFirst(npdu: array<byte>, byte1: byte, backlog: bool, source: bool)
      requires 2 + Bit(backlog) <= npdu.Length
      modifies npdu
      ensures npdu[..] == HeaderBytes(old(npdu[0]), old(npdu[1]), byte1, backlog, source) + old(npdu[2 + Bit(backlog)..])
    {
      if backlog { npdu[2] := npdu[0] % 64; }
      npdu[0] := 16 * Bit(npdu[1] / 64 != LEGACY) + Bit(source);
      npdu[1] := byte1;
    }

    /** `ConvertLonVxToLonUdp`: nothing is sent (size 0) for a version that is not supported. */
    method ConvertLonVxToLonUdp(npdu: array<byte>, len: nat) returns (size: nat, source: Ip, to: Ip)
      requires mapping.Valid() && 4 <= len && len + 2 <= npdu.Length && PduOffset(npdu[..len]) <= len
      modifies npdu
      ensures var m := MessageIn(old(npdu[..len]));
        match ToUdp(host, Cache(mapping.Table()), m)
        case Nothing => size == 0
        case Datagram(ip, payload) => to == ip && source == SourceIp(host, m) && size <= npdu.Length && npdu[..size] == payload
    {
      source, to := [0, 0, 0, 0], [0, 0, 0, 0];
      var m, start := MessageIn(npdu[..len]), PduOffset(npdu[..len]);
      MessageFields(npdu[..len]);
      ghost var c := Cache(mapping.Table());
      HeaderGrowth(host, c, npdu[..len]);
      hide MessageIn, PduOffset, Cache, DestIp, SourceField, DestField, UdpFormat, WithBacklog, SourceIp;
      if m.version != LEGACY && m.version != ENHANCED { return 0, source, to; }
      var format, backlog, dest, field;
      to, format, backlog, dest := PlanDest(m);
      field, source := GetArbitrarySource(m);
      assert npdu[..len][0] == npdu[0] && npdu[..len][1] == npdu[1] && m.pdu == npdu[start..len];
      PayloadFromHeader(host, c, m, npdu[1]);
      hide Header1, HeaderBytes, ToUdp;
      size := Rewrite(npdu, len, start, Header1(format, backlog, npdu[0] >= 128, m.pduType), backlog, field, dest);
    }

    // ----------------------------------------------------------------
    // Receiving
    // ----------------------------------------------------------------

    /** `GetDomainLenEncoding`: search the length table. */
    method GetDomainLenEncoding(len: nat) returns (code: nat)
      ensures code < 4
      ensures len in {0, 1, 3, 6} ==> code == EncodeDomainLength(len)
      ensures len !in {0, 1, 3, 6} ==> code == 0
    {
      var table := [0, 1, 3, 6];
      code := 0;
      while code < 4
        invariant code <= 4
        invariant forall k :: 0 <= k < code ==> table[k] != len
      {
        if len == table[code] { return; }
        code := code + 1;
      }
      assert table[0] != len && table[1] != len && table[2] != len && table[3] != len;
      code := 0;
    }

    /** Writes behind the part of the NPDU that is done. */
    method Append(npdu: array<byte>, at: nat, b: seq<byte>) returns (next: nat)
      requires at + |b| <= npdu.Length
      modifies npdu
      ensures next == at + |b| && npdu[..next] == old(npdu[..at]) + b
    {
      CopyIn(npdu, at, b);
      next := at + |b|;
    }

    /** Subnet, node and domain of the sender, from the payload or the IP source; `next` is behind them. */
    method ReadSource(b: seq<byte>, at: nat, explicit: bool, ip: Ip)
      returns (subnet: byte, node: byte, domain: AddressMapping.Domain, next: nat)
      requires at <= |b| && SourceOf(ip, explicit, b[at..]).Source?
      ensures next <= |b| && SourceOf(ip, explicit, b[at..]) == Source(subnet, node, domain, b[next..])
      ensures node >= 128 && |domain| in {0, 1, 3, 6} && at <= next
    {
      var domainLen := 0xff;
      domain, next := [], at;
      if explicit && b[at + 1] >= 128 {
        domainLen := DecodeDomainLength(b[at + 2] % 4);
        domain := b[at + 3..at + 3 + domainLen];
        Slice(b, at, 3, 3 + domainLen);
      }
      if domainLen == 0xff {
        if ip[..2] == [192, 168] {
          domainLen := 0;
        } else if ip[0] == 10 {
          domainLen, domain := 1, [ip[1]];
        } else {
          domainLen, domain := 3, ip[..3];
        }
      }
      if explicit {
        Slice(b, at, 2, 2);
        subnet, node := b[at], 128 + b[at + 1] % 128;
        next := if b[at + 1] >= 128 then at + domainLen + 3 else at + 2;
      } else {
        subnet, node := ip[2], 128 + ip[3] % 128;
      }
    }

    /** The switch over the address format: the destination bytes, and whether the high bit of the source
        node has to go because this is a group response. */
    method ReadTarget(b: seq<byte>, at: nat, format: nat)
      returns (known: bool, addrFmt: nat, bytes: seq<byte>, response: bool, next: nat)
      requires at <= |b| && TargetOf(me, format, b[at..]).Target?
      ensures var t := TargetOf(me, format, b[at..]);
        known <==> !t.dest.UnknownMode?
      ensures var t := TargetOf(me, format, b[at..]);
        known ==> addrFmt == Format(t.dest) && bytes == DestBytes(t.dest) && response == t.dest.MulticastAck?
      ensures var t := TargetOf(me, format, b[at..]);
        known ==> next <= |b| && b[next..] == t.rest
    {
      known, addrFmt, bytes, response, next := true, 0, [], false, at;
      var own := [me.subnet, 128 + me.node % 128];
      match format {
        case 6 =>
          addrFmt, bytes, next := 3, b[at..at + 7], at + 7;
          assert b[at..at + 7] == [b[at]] + b[at..][1..7];
        case 1 =>
          addrFmt, bytes := 2, own;
        case 5 =>
          addrFmt, bytes, response, next := 2, own + [b[at], b[at + 1]], true, at + 2;
        case 2 =>
          bytes := [0];
        case 3 =>
          bytes, next := [b[at]], at + 1;
        case 4 =>
          addrFmt, bytes, next := 1, [b[at]], at + 1;
        case 7 =>
          addrFmt := 2;
          if b[at + 1] >= 128 {
            bytes, response, next := [b[at], b[at + 1], b[at + 2], b[at + 3]], true, at + 4;
          } else {
            bytes, next := [b[at], 128 + b[at + 1]], at + 2;
          }
        case _ =>
          known := false;
      }
    }

    /** The end of the conversion: the type byte, then destination, domain and PDU. */
    method FinishNpdu(npdu: array<byte>, b0: byte, b1: byte, addrFmt: nat, response: bool, dest: seq<byte>, domain: seq<byte>,
                      pdu: seq<byte>)
      returns (len: nat)
      requires 4 + |dest| + |domain| + |pdu| <= npdu.Length && addrFmt < 4 && |domain| in {0, 1, 3, 6}
      modifies npdu
      ensures len == 4 + |dest| + |domain| + |pdu|
      ensures 0 <= EncodeDomainLength(|domain|) < 4
      ensures npdu[..len] == [old(npdu[0]),
          FirstByte(if b0 / 16 == 1 then ENHANCED else LEGACY, b1 % 4, addrFmt, EncodeDomainLength(|domain|)),
          old(npdu[2]), if response then old(npdu[3]) % 128 else old(npdu[3])]
        + dest + domain + pdu
    {
      var code := GetDomainLenEncoding(|domain|);
      if response { npdu[3] := npdu[3] % 128; }
      npdu[1] := 16 * (b1 % 4) + (if b0 / 16 == 1 then 128 else 0) + code + 4 * addrFmt;
      ghost var head := npdu[..4];
      len := Append(npdu, 4, dest);
      len := Append(npdu, len, domain);
      len := Append(npdu, len, pdu);
      assert npdu[..len] == head + dest + domain + pdu;
    }

    /** Tells the mapping cache where the sender is. */
    method LearnSource(explicit: bool, domain: AddressMapping.Domain, subnet: byte, node: byte, ip: Ip)
      requires mapping.Valid()
      modifies mapping, mapping.lsMapInfo
      ensures mapping.Valid() && mapping.Table()
        == Step(old(mapping.Table()), LearnedFrom(ip, explicit, Source(subnet, node, domain, [])))
    {
      if explicit {
        mapping.SetArbitraryAddressMapping(domain, subnet, node % 128, ip);
      } else {
        mapping.SetDerivedAddressMapping(domain, subnet, node % 128);
      }
    }

    /** Carries out an announcement. */
    method Announce(domain: AddressMapping.Domain, subnet: byte, node: byte, pdu: seq<byte>, ip: Ip)
      requires mapping.Valid() && IsAnnouncement(3, pdu)
      modifies mapping, mapping.lsMapInfo
      ensures mapping.Valid() && mapping.Table() == Step(old(mapping.Table()), AnnouncedOp(ip, domain, subnet, node, pdu))
    {
      if pdu[1] == 0x15 {
        mapping.UpdateMapping(domain, subnet, node % 128, ip);
      } else {
        mapping.SetDerivedSubnetsMapping(pdu[2] != 0, pdu[3..35]);
      }
    }

    /** The second part of the conversion, from the destination on, with the first four bytes of the NPDU
        written but for the type. */
    method ConvertRest(b: seq<byte>, at: nat, ip: Ip, domain: seq<byte>, npdu: array<byte>) returns (len: nat)
      requires mapping.Valid() && 2 <= at <= |b| && npdu.Length >= |b| + 20 && |domain| in {0, 1, 3, 6} && npdu[3] >= 128
      requires TargetOf(me, b[1] / 16, b[at..]).Target?
      modifies mapping, mapping.lsMapInfo, npdu
      ensures var s, t := Source(old(npdu[2]), old(npdu[3]), domain, b[at..]), TargetOf(me, b[1] / 16, b[at..]);
        if t.dest.UnknownMode? then len == 0 && mapping.Valid() && mapping.Table() == old(mapping.Table())
        else
          var heard := Assemble(b[0], b[1], old(npdu[0]), s, t);
          && mapping.Valid() && mapping.Table() == Run(old(mapping.Table()), AnnouncedBy(ip, heard))
          && HoldsHeard(npdu[..], len, heard)
    {
      ghost var s := Source(npdu[2], npdu[3], domain, b[at..]);
      var subnet, node := npdu[2], npdu[3];
      var known, addrFmt, dest, response, rest := ReadTarget(b, at, b[1] / 16);
      if !known { return 0; }
      var pdu := b[rest..];
      TargetShrinks(me, b[1] / 16, b[at..]);
      var delivered := if |domain| > 2 then domain[..2] + seq(|domain| - 2, _ => 0) else domain;
      AssembledBytes(ip, b[0], b[1], npdu[0], s, TargetOf(me, b[1] / 16, b[at..]));
      hide TargetOf, DestBytes, Assemble, Format, VxBytes, FirstByte;
      len := FinishNpdu(npdu, b[0], b[1], addrFmt, response, dest, delivered, pdu);
      assert npdu[..][..len] == npdu[..len];
      if b[1] % 4 == 3 && |pdu| >= 2 && pdu[0] == 0x60 && (pdu[1] == 0x15 || (pdu[1] == 0x16 && |pdu| >= 35)) {
        RunOne(mapping.Table(), AnnouncedOp(ip, delivered, subnet, node, pdu));
        Announce(delivered, subnet, node, pdu, ip);
        len := 0;
      }
    }

    /** From the source address on. */
    method ConvertBody(b: seq<byte>, at: nat, ip: Ip, npdu: array<byte>) returns (len: nat)
      requires mapping.Valid() && 2 <= at <= |b| && npdu.Length >= |b| + 20
      requires BodyFromUdp(ip, me, b[0], b[1], npdu[0], b[at..]).heard != Short
      modifies mapping, mapping.lsMapInfo, npdu
      ensures var got := BodyFromUdp(ip, me, b[0], b[1], old(npdu[0]), b[at..]);
        && mapping.Valid() && mapping.Table() == Run(old(mapping.Table()), got.learned)
        && HoldsHeard(npdu[..], len, got.heard)
    {
      BodyParts(ip, me, b[0], b[1], npdu[0], b[at..]);
      hide BodyFromUdp, Assemble, TargetOf, VxBytes;
      ghost var table, first := mapping.Table(), npdu[0];
      var subnet, node, domain, next := ReadSource(b, at, b[0] % 2 == 1, ip);
      ghost var s := Source(subnet, node, domain, b[next..]);
      ghost var op := LearnedFrom(ip, b[0] % 2 == 1, s);
      hide SourceOf, LearnedFrom, AnnouncedBy;
      LearnSource(b[0] % 2 == 1, domain, subnet, node, ip);
      npdu[2], npdu[3] := subnet, node;
      ghost var t := TargetOf(me, b[1] / 16, b[next..]);
      RunOne(table, op);
      if !t.dest.UnknownMode? { RunCons(table, op, AnnouncedBy(ip, Assemble(b[0], b[1], first, s, t))); }
      hide Run, Step;
      len := ConvertRest(b, next, ip, domain, npdu);
    }

    /** `ConvertLonUdpToLonVx` of a payload that holds its whole header. Length 0: nothing for the network
        layer. */
    method ConvertLonUdpToLonVx(b: seq<byte>, ip: Ip, npdu: array<byte>) returns (len: nat)
      requires mapping.Valid() && FromUdp(ip, me, b).heard != Short && npdu.Length >= |b| + 20
      modifies mapping, mapping.lsMapInfo, npdu
      ensures mapping.Valid() && mapping.Table() == Run(old(mapping.Table()), FromUdp(ip, me, b).learned)
      ensures HoldsHeard(npdu[..], len, FromUdp(ip, me, b).heard)
    {
      hide BodyFromUdp;
      if b[0] / 16 > 1 { return 0; }
      npdu[0] := if b[1] / 4 % 2 == 1 then 128 else 0;
      var at := 2;
      if b[1] / 8 % 2 == 1 {
        npdu[0] := npdu[0] + b[2] % 64;
        at := 3;
      }
      len := ConvertBody(b, at, ip, npdu);
    }
  }

  /** The outcome in the output buffer. */
  ghost predicate HoldsHeard(npdu: seq<byte>, len: nat, heard: Heard) {
    if heard.Passed? then len <= |npdu| && npdu[..len] == VxBytes(heard.m) else len == 0
  }

  lemma TargetShrinks(me: Me, format: nat, r: seq<byte>)
    ensures var t := TargetOf(me, format, r);
      t.Target? && !t.dest.UnknownMode? ==> |DestBytes(t.dest)| <= 7 && |t.rest| <= |r|
  {}

  lemma RunCons(t: seq<Slot>, op: Op, more: seq<Op>)
    ensures Run(t, [op] + more) == Run(Step(t, op), more)
  {
    hide Step;
    assert ([op] + more)[1..] == more;
  }

  /** A payload that holds its header has a source and a target, which make up what is heard. */
  lemma BodyParts(ip: Ip, me: Me, b0: byte, b1: byte, first: byte, r: seq<byte>)
    requires BodyFromUdp(ip, me, b0, b1, first, r).heard != Short
    ensures var s := SourceOf(ip, b0 % 2 == 1, r);
      && s.Source? && |s.domain| in {0, 1, 3, 6} && s.node >= 128 && TargetOf(me, b1 / 16, s.rest).Target?
      && var t, op, got := TargetOf(me, b1 / 16, s.rest), LearnedFrom(ip, b0 % 2 == 1, s), BodyFromUdp(ip, me, b0, b1, first, r);
      if t.dest.UnknownMode? then got == Reception(Heard.Dropped, [op])
      else
        var heard := Assemble(b0, b1, first, s, t);
        got == Reception(heard, [op] + AnnouncedBy(ip, heard))
  {
    hide TargetOf, LearnedFrom, Assemble, AnnouncedBy;
  }

  /** The bytes of what is assembled. */
  lemma AssembledBytes(ip: Ip, b0: byte, b1: byte, first: byte, s: Source, t: Target)
    requires s.Source? && t.Target? && !t.dest.UnknownMode? && s.node >= 128 && |s.domain| in {0, 1, 3, 6}
    ensures 0 <= EncodeDomainLength(|s.domain|) < 4
    ensures var heard := Assemble(b0, b1, first, s, t);
      && (heard.Announcement? <==> IsAnnouncement(b1 % 4, t.rest))
      && (heard.Announcement? ==>
            AnnouncedBy(ip, heard) == [AnnouncedOp(ip, Delivered(s.domain), s.subnet, s.node, t.rest)])
      && (heard.Passed? <==> !heard.Announcement?)
    ensures var heard := Assemble(b0, b1, first, s, t);
      heard.Passed? ==>
        VxBytes(heard.m) == [first, FirstByte(if b0 / 16 == 1 then ENHANCED else LEGACY, b1 % 4, Format(t.dest),
                                              EncodeDomainLength(|s.domain|)),
                             s.subnet, if t.dest.MulticastAck? then s.node % 128 else s.node]
                            + DestBytes(t.dest) + Delivered(s.domain) + t.rest
  {
    DomainLengthsRoundTrip(|s.domain|, 0);
    hide FirstByte, DestBytes, Delivered, IsAnnouncement, EncodeDomainLength, Format;
  }

  lemma PayloadFromHeader(h: Host, c: map<Key, Route>, m: Vx, second: byte)
    requires m.version == second / 64 && (m.version == LEGACY || m.version == ENHANCED)
    ensures ToUdp(h, c, m) == Datagram(DestIp(c, m),
      HeaderBytes(m.first, second, Header1(UdpFormat(c, m), WithBacklog(m), m.first >= 128, m.pduType), WithBacklog(m), SourceField(h, m) != [])
      + SourceField(h, m) + DestField(c, m) + m.pdu)
  {
    hide DestIp, SourceField, DestField, UdpFormat, WithBacklog, Header0, Header1;
  }

  lemma MessageFields(b: seq<byte>)
    requires |b| >= 4 && |b| >= PduOffset(b)
    ensures var m := MessageIn(b);
      m.first == b[0] && m.version == b[1] / 64 && m.pdu == b[PduOffset(b)..] && PduOffset(b) >= 2
  {}

  /** The new header is at most two bytes longer than the old one. */
  lemma HeaderGrowth(h: Host, c: map<Key, Route>, b: seq<byte>)
    requires |b| >= 4 && |b| >= PduOffset(b)
    ensures var m := MessageIn(b);
      2 + Bit(WithBacklog(m)) + |SourceField(h, m)| + |DestField(c, m)| <= PduOffset(b) + 2
  {
    hide KnownDerived, DerivedAddress;
  }
}
