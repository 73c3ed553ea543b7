/** The translation between LON NPDUs and LON/UDP payloads (ipv4_to_lon_udp.c, IPv4 branches). */
module LonUdp {
  import opened Bytes
  import opened LonAddress
  import opened AddressMapping
  import opened NetworkPdu

  // ------------------------------------------------------------------
  // NPDUs as this layer sees them
  // ------------------------------------------------------------------

  /** An NPDU behind its priority and backlog byte. The source node byte has its high bit off in group
      responses only. */
  datatype RawVx = Vx(first: byte, version: nat, pduType: nat, srcSubnet: byte, srcNode: byte,
                      dest: Dest, domain: seq<byte>, pdu: seq<byte>)
  type Vx = m: RawVx |
      && m.version < 4 && m.pduType < 4 && |m.domain| in {0, 1, 3, 6} && !m.dest.UnknownMode?
      && (m.dest.MulticastAck? ==> m.srcNode < 128) && (m.dest.SubnetNode? ==> m.srcNode >= 128)
    witness RawVx.Vx(0, 0, 0, 0, 128, Broadcast(0), [], [])

  function VxBytes(m: Vx): seq<byte> {
    DomainLengthsRoundTrip(|m.domain|, 0);
    [m.first, FirstByte(m.version, m.pduType, Format(m.dest), EncodeDomainLength(|m.domain|)), m.srcSubnet, m.srcNode]
    + DestBytes(m.dest) + m.domain + m.pdu
  }

  const LEGACY := 0
  const ENHANCED := 2

  // ------------------------------------------------------------------
  // Sending
  // ------------------------------------------------------------------

  /** The sending side: is there a connection, and under which address. */
  datatype Host = Host(connected: bool, ip: Ip)

  /** The source address in the payload, if the IP source does not say it all; the domain is included if the
      IP source does not have its prefix. `Ipv4GetArbitrarySourceAddress` */
  function SourceField(h: Host, m: Vx): (f: seq<byte>)
    ensures f == [] || |f| >= 2
  {
    var s, n := m.srcSubnet, m.srcNode % 128;
    if !h.connected || !Mappable(m.domain) || h.ip == DerivedAddress(m.domain, s, n) then []
    else if h.ip[..2] == DerivedAddress(m.domain, 1, 1)[..2] then [s, n]
    else [s, 128 + n, EncodeDomainLength(|m.domain|)] + m.domain
  }

  predicate KnownDerived(c: map<Key, Route>, m: Vx)
    requires m.dest.SubnetNode? || m.dest.MulticastAck?
  {
    var key := match m.dest
               case SubnetNode(s, n) => KeyOf(m.domain, s, n)
               case MulticastAck(s, n, _, _) => KeyOf(m.domain, s, n);
    key in c && c[key].ByDerivation?
  }

  const UDP_SUBNET_NODE := 1
  const UDP_DOMAIN_BROADCAST := 2
  const UDP_SUBNET_BROADCAST := 3
  const UDP_GROUP := 4
  const UDP_GROUP_RESP := 5
  const UDP_BROADCAST_NEURON_ID := 6
  const UDP_EXP_SUBNET_NODE := 7

  function UdpFormat(c: map<Key, Route>, m: Vx): (f: nat)
    ensures 1 <= f <= 7
  {
    match m.dest
    case Broadcast(s) => if s == 0 then UDP_DOMAIN_BROADCAST else UDP_SUBNET_BROADCAST
    case Multicast(_) => UDP_GROUP
    case SubnetNode(_, _) => if KnownDerived(c, m) then UDP_SUBNET_NODE else UDP_EXP_SUBNET_NODE
    case MulticastAck(_, _, _, _) => if KnownDerived(c, m) then UDP_GROUP_RESP else UDP_EXP_SUBNET_NODE
    case UniqueNodeId(_, _) => UDP_BROADCAST_NEURON_ID
  }

  /** The part of the destination that travels in the payload. */
  function DestField(c: map<Key, Route>, m: Vx): seq<byte> {
    match m.dest
    case Broadcast(s) => if s == 0 then [] else [s]
    case Multicast(g) => [g]
    case SubnetNode(s, n) => if KnownDerived(c, m) then [] else [s, n % 128]
    case MulticastAck(s, n, g, k) => if KnownDerived(c, m) then [g, k] else [s, n % 128, g, k]
    case UniqueNodeId(s, uid) => [s] + uid
  }

  function DestIp(c: map<Key, Route>, m: Vx): Ip {
    match m.dest
    case Broadcast(s) => MulticastAddress(false, s)
    case Multicast(g) => MulticastAddress(true, g)
    case SubnetNode(s, n) => Destination(c, m.domain, s, n)
    case MulticastAck(s, n, _, _) => Destination(c, m.domain, s, n)
    case UniqueNodeId(_, _) => MulticastAddress(false, 0)
  }

  /** The byte in front of the enclosed PDU of a broadcast or group message. */
  function ByteBeforePdu(m: Vx): byte
    requires m.dest.Broadcast? || m.dest.Multicast?
  {
    if m.domain != [] then m.domain[|m.domain| - 1] else if m.dest.Broadcast? then m.dest.subnet else m.dest.group
  }

  /** Backlog information is included in multicasts of TPDUs and SPDUs when the service bits of a byte are 0:
      the test looks at the byte in front of the PDU. */
  predicate WithBacklog(m: Vx) {
    (m.dest.Broadcast? || m.dest.Multicast?) && m.pduType <= 1 && ByteBeforePdu(m) / 16 % 4 == 0
  }

  function Header0(version: nat, source: bool): byte {
    16 * Bit(version != LEGACY) + Bit(source)
  }

  function Header1(format: nat, backlog: bool, priority: bool, pduType: nat): byte
    requires format < 16 && pduType < 4
  {
    16 * format + 8 * Bit(backlog) + 4 * Bit(priority) + pduType
  }

  datatype Datagram = Nothing | Datagram(to: Ip, payload: seq<byte>)

  function Backlog(m: Vx): seq<byte> {
    if WithBacklog(m) then [m.first % 64] else []
  }

  function Payload(h: Host, c: map<Key, Route>, m: Vx): seq<byte> {
    [Header0(m.version, SourceField(h, m) != []), Header1(UdpFormat(c, m), WithBacklog(m), m.first >= 128, m.pduType)]
    + Backlog(m) + SourceField(h, m) + DestField(c, m) + m.pdu
  }

  /** `ConvertLonVxToLonUdp` */
  function ToUdp(h: Host, c: map<Key, Route>, m: Vx): Datagram {
    if m.version == LEGACY || m.version == ENHANCED then Datagram(DestIp(c, m), Payload(h, c, m)) else Nothing
  }

  // ------------------------------------------------------------------
  // Receiving
  // ------------------------------------------------------------------

  /** The receiving side: subnet and 7-bit node of domain table entry 0. */
  datatype Me = Me(subnet: byte, node: nat)

  /** The domain as an IP address has it: the third byte is left as it is. */
  function IpDomain(ip: Ip): (d: AddressMapping.Domain)
    ensures |d| in {0, 1, 3}
  {
    if ip[..2] == [192, 168] then [] else if ip[0] == 10 then [ip[1]] else ip[..3]
  }

  /** The domain as it is delivered: all but the first two bytes cleared. */
  function Delivered(d: seq<byte>): (r: seq<byte>)
    ensures |r| == |d|
  {
    if |d| > 2 then d[..2] + seq(|d| - 2, _ => 0) else d
  }

  /** The source: subnet, node byte with the high bit set, domain, and the rest of the payload. */
  datatype Source = NoSource | Source(subnet: byte, node: byte, domain: seq<byte>, rest: seq<byte>)

  function SourceOf(ip: Ip, explicit: bool, r: seq<byte>): (s: Source)
    ensures s.Source? ==> |s.domain| in {0, 1, 3, 6}
  {
    if !explicit then Source(ip[2], 128 + ip[3] % 128, IpDomain(ip), r)
    else if |r| < 2 then NoSource
    else if r[1] < 128 then Source(r[0], 128 + r[1] % 128, IpDomain(ip), r[2..])
    else if |r| < 3 || |r| < 3 + DecodeDomainLength(r[2] % 4) then NoSource
    else
      var len := DecodeDomainLength(r[2] % 4);
      Source(r[0], 128 + r[1] % 128, r[3..3 + len], r[3 + len..])
  }

  /** What the receiver learns about the sender. */
  function LearnedFrom(ip: Ip, explicit: bool, s: Source): Op
    requires s.Source? && |s.domain| <= 6
  {
    if explicit then SetArbitrary(s.domain, s.subnet, s.node % 128, ip) else SetDerived(s.domain, s.subnet, s.node % 128)
  }

  /** The destination and the rest of the payload. `UnknownMode` stands for a format that is not known. */
  datatype Target = NoTarget | Target(dest: Dest, rest: seq<byte>)

  function TargetOf(me: Me, format: nat, r: seq<byte>): Target {
    var own := 128 + me.node % 128;
    if format == UDP_BROADCAST_NEURON_ID then
      if |r| < 7 then NoTarget else Target(UniqueNodeId(r[0], r[1..7]), r[7..])
    else if format == UDP_SUBNET_NODE then Target(SubnetNode(me.subnet, own), r)
    else if format == UDP_GROUP_RESP then
      if |r| < 2 then NoTarget else Target(MulticastAck(me.subnet, own, r[0], r[1]), r[2..])
    else if format == UDP_DOMAIN_BROADCAST then Target(Broadcast(0), r)
    else if format == UDP_SUBNET_BROADCAST then if r == [] then NoTarget else Target(Broadcast(r[0]), r[1..])
    else if format == UDP_GROUP then if r == [] then NoTarget else Target(Multicast(r[0]), r[1..])
    else if format == UDP_EXP_SUBNET_NODE then
      if |r| < 2 then NoTarget
      else if r[1] < 128 then Target(SubnetNode(r[0], 128 + r[1]), r[2..])
      else if |r| < 4 then NoTarget
      else Target(MulticastAck(r[0], r[1], r[2], r[3]), r[4..])
    else Target(UnknownMode, r)
  }

  /** An application message that the mapping layer keeps to itself. */
  predicate IsAnnouncement(pduType: nat, pdu: seq<byte>) {
    pduType == 3 && |pdu| >= 2 && pdu[0] == 0x60 && (pdu[1] == 0x15 || (pdu[1] == 0x16 && |pdu| >= 35))
  }

  /** What becomes of a payload. `Short`: it ends inside its own header. */
  datatype Heard = Short | Dropped | Announcement(a: Vx) | Passed(m: Vx)

  /** What is heard, and the operations on the mapping cache that come with it. */
  datatype Reception = Reception(heard: Heard, learned: seq<Op>)

  function Assemble(b0: byte, b1: byte, first: byte, s: Source, t: Target): Heard
    requires s.Source? && t.Target? && !t.dest.UnknownMode? && s.node >= 128 && |s.domain| in {0, 1, 3, 6}
    ensures var heard := Assemble(b0, b1, first, s, t);
      heard.Announcement? ==> IsAnnouncement(3, heard.a.pdu)
  {
    var m := Vx(first, if b0 / 16 == 1 then ENHANCED else LEGACY, b1 % 4, s.subnet,
                if t.dest.MulticastAck? then s.node % 128 else s.node, t.dest, Delivered(s.domain), t.rest);
    if IsAnnouncement(m.pduType, m.pdu) then Announcement(m) else Passed(m)
  }

  /** The operation that an announcement calls for. */
  function AnnouncedOp(ip: Ip, domain: AddressMapping.Domain, subnet: byte, node: byte, pdu: seq<byte>): Op
    requires IsAnnouncement(3, pdu)
  {
    if pdu[1] == 0x15 then Update(domain, subnet, node % 128, ip) else SetSubnets(pdu[2] != 0, pdu[3..35])
  }

  /** The operations that come with what is heard. */
  function AnnouncedBy(ip: Ip, heard: Heard): seq<Op>
    requires heard.Announcement? ==> IsAnnouncement(3, heard.a.pdu)
  {
    if heard.Announcement? then [AnnouncedOp(ip, heard.a.domain, heard.a.srcSubnet, heard.a.srcNode, heard.a.pdu)] else []
  }

  /** A payload from its source address on, after the two header bytes and the backlog. */
  function BodyFromUdp(ip: Ip, me: Me, b0: byte, b1: byte, first: byte, r: seq<byte>): Reception {
    var explicit := b0 % 2 == 1;
    var s := SourceOf(ip, explicit, r);
    if s.NoSource? then Reception(Short, [])
    else
      var learned := [LearnedFrom(ip, explicit, s)];
      match TargetOf(me, b1 / 16, s.rest)
      case NoTarget => Reception(Short, learned)
      case Target(dest, rest) =>
        if dest.UnknownMode? then Reception(Heard.Dropped, learned)
        else
          var heard := Assemble(b0, b1, first, s, Target(dest, rest));
          Reception(heard, learned + AnnouncedBy(ip, heard))
  }

  /** `ConvertLonUdpToLonVx` */
  function FromUdp(ip: Ip, me: Me, b: seq<byte>): Reception {
    if |b| < 2 then Reception(Short, [])
    else if b[0] / 16 > 1 then Reception(Heard.Dropped, [])
    else
      var backlog := b[1] / 8 % 2 == 1;
      if backlog && |b| < 3 then Reception(Short, [])
      else
        var first := 128 * Bit(b[1] / 4 % 2 == 1) + if backlog then b[2] % 64 else 0;
        BodyFromUdp(ip, me, b[0], b[1], first, if backlog then b[3..] else b[2..])
  }

  // ------------------------------------------------------------------
  // Round trip
  // ------------------------------------------------------------------

  lemma HeaderFields(version: nat, source: bool, format: nat, backlog: bool, priority: bool, pduType: nat)
    requires format < 16 && pduType < 4
    ensures var b := Header0(version, source); b / 16 == Bit(version != LEGACY) && b % 2 == Bit(source)
    ensures var b := Header1(format, backlog, priority, pduType);
      b / 16 == format && b / 8 % 2 == Bit(backlog) && b / 4 % 2 == Bit(priority) && b % 4 == pduType
  {
    var b := Header1(format, backlog, priority, pduType);
    assert b / 4 == 4 * format + 2 * Bit(backlog) + Bit(priority);
    assert b / 8 == 2 * format + Bit(backlog);
  }

  /** The domain can be read off the sender's address, or need not be. */
  predicate SourceReadable(h: Host, m: Vx) {
    var derived := DerivedAddress(m.domain, m.srcSubnet, m.srcNode);
    || (h.ip != derived && h.ip[..2] != Prefix(m.domain))
    || (!Clashes(m.domain) && !(h.ip == derived && (m.srcSubnet == 0 || m.srcNode % 128 == 0) && m.domain != []))
  }

  /** Source field and IP source together carry the source subnet and node, and the domain exactly if it is
      readable. */
  lemma SourceRoundTripIff(h: Host, m: Vx, rest: seq<byte>)
    requires h.connected && Mappable(m.domain)
    ensures var f := SourceField(h, m);
      var s := SourceOf(h.ip, f != [], f + rest);
      s.Source? && s.subnet == m.srcSubnet && s.node == 128 + m.srcNode % 128 && s.rest == rest
      && (Delivered(s.domain) == m.domain <==> SourceReadable(h, m))
  {
    var f, node := SourceField(h, m), m.srcNode % 128;
    IpDomainDelivered(h.ip);
    if f == [] {
      assert f + rest == rest;
      DerivedNamesDomainIff(m.domain, m.srcSubnet, node);
    } else if |f| == 2 {
      assert (f + rest)[2..] == rest;
      PrefixNamesDomain(m.domain, h.ip);
    } else {
      ExplicitSource(h.ip, m, rest);
    }
  }

  lemma ExplicitSource(ip: Ip, m: Vx, rest: seq<byte>)
    requires Mappable(m.domain)
    ensures var r := [m.srcSubnet, 128 + m.srcNode % 128, EncodeDomainLength(|m.domain|)] + m.domain + rest;
      SourceOf(ip, true, r) == Source(m.srcSubnet, 128 + m.srcNode % 128, m.domain, rest)
    ensures Delivered(m.domain) == m.domain
  {
    DomainLengthsRoundTrip(|m.domain|, 0);
    var r := [m.srcSubnet, 128 + m.srcNode % 128, EncodeDomainLength(|m.domain|)] + m.domain + rest;
    assert r[3..3 + |m.domain|] == m.domain && r[3 + |m.domain|..] == rest;
    if |m.domain| == 3 { assert m.domain == m.domain[..2] + [0]; }
  }

  lemma IpDomainDelivered(ip: Ip)
    ensures Delivered(IpDomain(ip)) == DomainOfIp(ip)
  {}

  /** Destination field and the receiver's own address together carry the destination, at the addressee;
      of a group response only if the sender knows that it uses a derived address. */
  lemma TargetRoundTripIff(c: map<Key, Route>, m: Vx, me: Me)
    requires AtAddressee(c, m, me)
    ensures var t := TargetOf(me, UdpFormat(c, m), DestField(c, m) + m.pdu);
      t.Target? && !t.dest.UnknownMode?
      && (t == Target(OnWire(m.dest), m.pdu) <==> (m.dest.MulticastAck? ==> KnownDerived(c, m)))
      && (t.dest == OnWire(m.dest) <==> (m.dest.MulticastAck? ==> KnownDerived(c, m)))
  {
    hide KnownDerived;
    var r := DestField(c, m) + m.pdu;
    match m.dest
    case Broadcast(s) => if s == 0 { assert r == m.pdu; } else { assert r[1..] == m.pdu; }
    case Multicast(_) => assert r[1..] == m.pdu;
    case SubnetNode(_, _) => if KnownDerived(c, m) { assert r == m.pdu; } else { assert r[2..] == m.pdu; }
    case MulticastAck(_, _, _, _) => AckRoundTripIff(c, m, me);
    case UniqueNodeId(s, uid) => assert r[1..7] == uid && r[7..] == m.pdu;
  }

  lemma AckRoundTripIff(c: map<Key, Route>, m: Vx, me: Me)
    requires AtAddressee(c, m, me) && m.dest.MulticastAck?
    ensures var t := TargetOf(me, UdpFormat(c, m), DestField(c, m) + m.pdu);
      t.Target? && t.dest == (if KnownDerived(c, m) then OnWire(m.dest) else SubnetNode(m.dest.ackSubnet, Selected(m.dest.ackNode)))
      && (KnownDerived(c, m) ==> t.rest == m.pdu)
  {
    hide KnownDerived;
    var r := DestField(c, m) + m.pdu;
    if KnownDerived(c, m) { assert r[2..] == m.pdu; }
  }

  /** Addressed by its own derived address, a message has to be at the node with that subnet and number. */
  predicate AtAddressee(c: map<Key, Route>, m: Vx, me: Me) {
    match m.dest
    case SubnetNode(s, n) => KnownDerived(c, m) ==> me.subnet == s && me.node % 128 == n % 128
    case MulticastAck(s, n, _, _) => KnownDerived(c, m) ==> me.subnet == s && me.node % 128 == n % 128
    case _ => true
  }

  /** What should arrive: the message as it was, but for the backlog, which is only sometimes sent along. */
  function Expected(m: Vx): Vx {
    m.(first := 128 * Bit(m.first >= 128) + (if WithBacklog(m) then m.first % 64 else 0), dest := OnWire(m.dest))
  }

  // The parts of what is sent, and how they are read.

  ghost predicate Explicit(h: Host, m: Vx) {
    SourceField(h, m) != []
  }

  ghost function Sent0(h: Host, m: Vx): byte {
    Header0(m.version, Explicit(h, m))
  }

  ghost function Sent1(c: map<Key, Route>, m: Vx): byte {
    Header1(UdpFormat(c, m), WithBacklog(m), m.first >= 128, m.pduType)
  }

  ghost function SentRest(h: Host, c: map<Key, Route>, m: Vx): seq<byte> {
    SourceField(h, m) + (DestField(c, m) + m.pdu)
  }

  ghost function SeenSource(h: Host, c: map<Key, Route>, m: Vx): Source {
    SourceOf(h.ip, Explicit(h, m), SentRest(h, c, m))
  }

  ghost function SeenTarget(c: map<Key, Route>, m: Vx, me: Me): Target {
    TargetOf(me, UdpFormat(c, m), DestField(c, m) + m.pdu)
  }

  lemma SentHeader(h: Host, c: map<Key, Route>, m: Vx)
    ensures Sent0(h, m) % 2 == Bit(Explicit(h, m)) && Sent0(h, m) / 16 == Bit(m.version != LEGACY)
    ensures Sent1(c, m) % 4 == m.pduType && Sent1(c, m) / 16 == UdpFormat(c, m) && Sent1(c, m) / 8 % 2 == |Backlog(m)|
    ensures Expected(m).first == 128 * Bit(Sent1(c, m) / 4 % 2 == 1) + (if Backlog(m) == [] then 0 else Backlog(m)[0] % 64)
  {
    HeaderFields(m.version, Explicit(h, m), UdpFormat(c, m), WithBacklog(m), m.first >= 128, m.pduType);
    hide Explicit, UdpFormat, WithBacklog, Header0, Header1, OnWire;
  }

  /** What is sent is read as a source and a target, which are right under the conditions found above. */
  lemma SentReadsAs(h: Host, c: map<Key, Route>, m: Vx, me: Me)
    requires h.connected && Mappable(m.domain) && AtAddressee(c, m, me)
    ensures ReadsAs(h.ip, me, Sent0(h, m), Sent1(c, m), Backlog(m), SentRest(h, c, m), SeenSource(h, c, m), SeenTarget(c, m, me))
    ensures var s, t := SeenSource(h, c, m), SeenTarget(c, m, me);
      && s.Source? && t.Target? && !t.dest.UnknownMode?
      && s.subnet == m.srcSubnet && s.node == 128 + m.srcNode % 128 && |s.domain| in {0, 1, 3, 6}
      && (Delivered(s.domain) == m.domain <==> SourceReadable(h, m))
      && (t == Target(OnWire(m.dest), m.pdu) <==> (m.dest.MulticastAck? ==> KnownDerived(c, m)))
      && (t.dest == OnWire(m.dest) <==> (m.dest.MulticastAck? ==> KnownDerived(c, m)))
  {
    SentHeader(h, c, m);
    SourceRoundTripIff(h, m, DestField(c, m) + m.pdu);
    TargetRoundTripIff(c, m, me);
    assert |SeenSource(h, c, m).domain| in {0, 1, 3, 6} && SeenSource(h, c, m).Source?;
    hide SourceOf, TargetOf, UdpFormat, SourceField, DestField, SourceReadable, OnWire, KnownDerived, Delivered, AtAddressee,
         Mappable, Sent0, Sent1, Backlog, Expected;
  }

  /** Version, PDU type, priority, source, destination, domain and PDU come back at the addressee, whatever
      the address of a connected sender, for every domain that addresses can carry, exactly if the domain is
      readable and a group response goes to a node known to use its derived address. */
  lemma RoundTripIff(h: Host, c: map<Key, Route>, m: Vx, me: Me)
    requires h.connected && Mappable(m.domain) && AtAddressee(c, m, me)
    requires m.version == LEGACY || m.version == ENHANCED
    requires m.srcNode >= 128 || m.dest.MulticastAck?
    requires !IsAnnouncement(m.pduType, m.pdu)
    ensures FromUdp(h.ip, me, ToUdp(h, c, m).payload).heard == Passed(Expected(m)) <==>
      SourceReadable(h, m) && (m.dest.MulticastAck? ==> KnownDerived(c, m))
  {
    hide *;
    PayloadParts(h, c, m);
    SentHeader(h, c, m);
    SentReadsAs(h, c, m, me);
    ReceiveParts(h.ip, me, Sent0(h, m), Sent1(c, m), Backlog(m), SentRest(h, c, m), SeenSource(h, c, m), SeenTarget(c, m, me));
    AssembleIff(m, Sent0(h, m), Sent1(c, m), SeenSource(h, c, m), SeenTarget(c, m, me));
  }

  /** Whenever a message arrives as it was sent, the receiver's cache, whatever it held before, from then on
      sends messages for the sender's subnet and node to the very IP address the sender uses. */
  lemma ReplyReachesSender(h: Host, c: map<Key, Route>, m: Vx, me: Me, t: seq<Slot>)
    requires h.connected && Mappable(m.domain) && Inv(t)
    requires m.version == LEGACY || m.version == ENHANCED
    requires m.srcNode >= 128 || m.dest.MulticastAck?
    requires AtAddressee(c, m, me) && !IsAnnouncement(m.pduType, m.pdu)
    requires SourceReadable(h, m) && (m.dest.MulticastAck? ==> KnownDerived(c, m))
    ensures var learned := FromUdp(h.ip, me, ToUdp(h, c, m).payload).learned;
      Destination(Cache(Run(t, learned)), m.domain, m.srcSubnet, m.srcNode) == h.ip
    ensures Knows(Cache(Run(t, FromUdp(h.ip, me, ToUdp(h, c, m).payload).learned)), h, m)
  {
    RoundTripIff(h, c, m, me);
    PayloadParts(h, c, m);
    SentHeader(h, c, m);
    SentReadsAs(h, c, m, me);
    var s := SeenSource(h, c, m);
    LearnedSender(h, m, s, t);
    RunOne(t, LearnedFrom(h.ip, Explicit(h, m), s));
    hide *;
    ReceiveLearns(h.ip, me, Sent0(h, m), Sent1(c, m), Backlog(m), SentRest(h, c, m), s, SeenTarget(c, m, me));
  }

  /** A request and its group response: sent back by a node that learned the requester from the request itself, the
      response arrives as a group response exactly if the requester uses its derived address. */
  lemma ResponseArrivesIff(h: Host, c: map<Key, Route>, m: Vx, me: Me, t: seq<Slot>, back: Host, r: Vx, requester: Me)
    requires h.connected && Mappable(m.domain) && Inv(t)
    requires m.version == LEGACY || m.version == ENHANCED
    requires m.srcNode >= 128 || m.dest.MulticastAck?
    requires AtAddressee(c, m, me) && !IsAnnouncement(m.pduType, m.pdu)
    requires SourceReadable(h, m) && (m.dest.MulticastAck? ==> KnownDerived(c, m))
    requires r.dest.MulticastAck? && r.dest.ackSubnet == m.srcSubnet && r.dest.ackNode == m.srcNode && r.domain == m.domain
    requires back.connected && (r.version == LEGACY || r.version == ENHANCED) && !IsAnnouncement(r.pduType, r.pdu)
    requires SourceReadable(back, r) && requester.subnet == m.srcSubnet && requester.node % 128 == m.srcNode % 128
    ensures var c' := Cache(Run(t, FromUdp(h.ip, me, ToUdp(h, c, m).payload).learned));
      FromUdp(back.ip, requester, ToUdp(back, c', r).payload).heard == Passed(Expected(r))
      <==> h.ip == DerivedAddress(m.domain, m.srcSubnet, m.srcNode)
  {
    ReplyReachesSender(h, c, m, me, t);
    var c' := Cache(Run(t, FromUdp(h.ip, me, ToUdp(h, c, m).payload).learned));
    assert KnownDerived(c', r) <==> h.ip == DerivedAddress(m.domain, m.srcSubnet, m.srcNode);
    assert AtAddressee(c', r, requester);
    hide FromUdp, ToUdp, Cache, Run, SourceReadable, KnownDerived, Expected, AtAddressee;
    RoundTripIff(back, c', r, requester);
  }

  lemma RunOne(t: seq<Slot>, op: Op)
    ensures Run(t, [op]) == Step(t, op)
  {
    hide Step;
    assert [op][1..] == [] && Run(Step(t, op), []) == Step(t, op);
  }

  lemma LearnedSender(h: Host, m: Vx, s: Source, t: seq<Slot>)
    requires h.connected && Mappable(m.domain) && Inv(t) && SourceReadable(h, m)
    requires s.Source? && |s.domain| in {0, 1, 3, 6} && Delivered(s.domain) == m.domain
    requires s.subnet == m.srcSubnet && s.node == 128 + m.srcNode % 128
    ensures Destination(Cache(Step(t, LearnedFrom(h.ip, Explicit(h, m), s))), m.domain, m.srcSubnet, m.srcNode) == h.ip
    ensures Knows(Cache(Step(t, LearnedFrom(h.ip, Explicit(h, m), s))), h, m)
  {
    SameKey(s.domain, m.domain, m.srcSubnet, m.srcNode);
    assert Explicit(h, m) <==> h.ip != DerivedAddress(m.domain, m.srcSubnet, m.srcNode) by { ExplicitIff(h, m); }
    hide KnownDerived;
    SetIsKnown(t, LearnedFrom(h.ip, Explicit(h, m), s));
    hide Inv, Step, Cache, KeyOf, DerivedAddress, SourceReadable, Explicit, Mappable, Delivered, Destination;
    SetReaches(t, LearnedFrom(h.ip, Explicit(h, m), s), m.domain, m.srcSubnet, m.srcNode);
    if !Explicit(h, m) { ImplicitIsDerived(h, m); }
  }

  /** The sender's subnet and node are in the cache, as using the derived address exactly if the sender does. */
  ghost predicate Knows(c: map<Key, Route>, h: Host, m: Vx) {
    var key := KeyOf(m.domain, m.srcSubnet, m.srcNode);
    key in c && (c[key].ByDerivation? <==> h.ip == DerivedAddress(m.domain, m.srcSubnet, m.srcNode))
  }

  lemma ExplicitIff(h: Host, m: Vx)
    requires h.connected && Mappable(m.domain)
    ensures Explicit(h, m) <==> h.ip != DerivedAddress(m.domain, m.srcSubnet, m.srcNode)
  {
    assert DerivedAddress(m.domain, m.srcSubnet, m.srcNode) == DerivedAddress(m.domain, m.srcSubnet, m.srcNode % 128);
  }

  lemma SameKey(a: seq<byte>, b: seq<byte>, subnet: byte, node: byte)
    requires Delivered(a) == b && |a| <= 3
    ensures KeyOf(a, subnet, node % 128) == KeyOf(b, subnet, node)
  {
    assert |a| == 3 ==> Delivered(a)[..2] == a[..2];
  }

  lemma ImplicitIsDerived(h: Host, m: Vx)
    requires h.connected && Mappable(m.domain) && !Explicit(h, m)
    ensures DerivedAddress(m.domain, m.srcSubnet, m.srcNode) == h.ip
  {}

  /** A connected sender in a domain that addresses can carry always gives its own address as the source. */
  function SourceIp(h: Host, m: Vx): Ip {
    if SourceField(h, m) != [] then h.ip else DerivedAddress(m.domain, m.srcSubnet, m.srcNode)
  }

  lemma SourceIsOwn(h: Host, m: Vx)
    requires h.connected && Mappable(m.domain)
    ensures SourceIp(h, m) == h.ip
  {
    assert DerivedAddress(m.domain, m.srcSubnet, m.srcNode) == DerivedAddress(m.domain, m.srcSubnet, m.srcNode % 128);
  }

  lemma RunTwo(t: seq<Slot>, a: Op, b: Op)
    ensures Run(t, [a, b]) == Step(Step(t, a), b)
  {
    hide Step;
    assert [a, b][1..] == [b];
    RunOne(Step(t, a), b);
  }

  /** An announcement is learned after its sender. Of subnets, it says that they use derived addresses, or takes
      that back when its third byte is 0: afterwards the first entry of each subnet in the bitmap is known as
      derived, or is not known, and no other one has changed. Of a node, it makes messages for it go to the
      address it came from, unless that address is misjudged. */
  lemma AnnouncementTaken(ip: Ip, me: Me, b: seq<byte>, t: seq<Slot>)
    requires Inv(t) && FromUdp(ip, me, b).heard.Announcement?
    ensures var r := FromUdp(ip, me, b);
      |r.learned| == 2 && Inv(Step(t, r.learned[0])) && |r.heard.a.pdu| >= 2
    ensures var r := FromUdp(ip, me, b);
      var a, before, after := r.heard.a, Step(t, r.learned[0]), Run(t, r.learned);
      if a.pdu[1] == 0x16 then
        |a.pdu| >= 35 && |after| == |before| && forall k :: 0 <= k < |before| ==>
          after[k] ==
            if First(before, InSubnet(before[k].subnetId)) == k && Flagged(a.pdu[3..35], before[k].subnetId)
            then before[k].(state := if a.pdu[2] != 0 then Derived else Available) else before[k]
      else
        a.pdu[1] == 0x15 &&
        (Mappable(a.domain) ==>
          (Destination(Cache(after), a.domain, a.srcSubnet, a.srcNode % 128) == ip
           <==> !Misjudged(a.domain, a.srcSubnet, a.srcNode % 128, ip)))
  {
    var r := FromUdp(ip, me, b);
    HeardIsLearned(ip, me, b);
    var a := r.heard.a;
    StepRefines(t, r.learned[0]);
    RunTwo(t, r.learned[0], r.learned[1]);
    hide FromUdp, Inv, Learn, Step, First, Destination, Cache, Misjudged;
    if a.pdu[1] == 0x16 {
      SubnetsTaken(Step(t, r.learned[0]), a.pdu[2] != 0, a.pdu[3..35]);
    } else if Mappable(a.domain) {
      AnnouncementReachesIff(Step(t, r.learned[0]), a.domain, a.srcSubnet, a.srcNode % 128, ip);
    }
  }

  lemma SubnetsTaken(t: seq<Slot>, derived: bool, bits: Bitmap)
    ensures var t' := Step(t, SetSubnets(derived, bits));
      |t'| == |t| && forall k :: 0 <= k < |t| ==>
        t'[k] ==
          if First(t, InSubnet(t[k].subnetId)) == k && Flagged(bits, t[k].subnetId)
          then t[k].(state := if derived then Derived else Available) else t[k]
  {
    hide First, Flagged;
    forall k | 0 <= k < |t| { SubnetsAt(t, bits, derived, 0, k); }
  }

  lemma HeardIsLearned(ip: Ip, me: Me, b: seq<byte>)
    requires FromUdp(ip, me, b).heard.Announcement?
    ensures var r := FromUdp(ip, me, b);
      && IsAnnouncement(3, r.heard.a.pdu) && |r.learned| == 2
      && r.learned[1] == AnnouncedOp(ip, r.heard.a.domain, r.heard.a.srcSubnet, r.heard.a.srcNode, r.heard.a.pdu)
  {
    hide SourceOf, TargetOf, LearnedFrom, AnnouncedOp;
  }

  /** The bytes of a payload: version and whether the source is spelled out; address format, backlog, priority and
      PDU type; the six bits of backlog without the alternate path bit; source, destination and PDU. */
  lemma PayloadLayout(h: Host, c: map<Key, Route>, m: Vx)
    requires m.version == LEGACY || m.version == ENHANCED
    ensures var p := ToUdp(h, c, m).payload;
      var rest := SourceField(h, m) + DestField(c, m) + m.pdu;
      && |p| >= 2
      && p[0] == (if m.version == 2 then 16 else 0) + (if SourceField(h, m) != [] then 1 else 0)
      && p[1] == 16 * (match m.dest
                       case Broadcast(s) => if s == 0 then 2 else 3
                       case Multicast(_) => 4
                       case SubnetNode(_, _) => if KnownDerived(c, m) then 1 else 7
                       case MulticastAck(_, _, _, _) => if KnownDerived(c, m) then 5 else 7
                       case _ => 6)
               + (if WithBacklog(m) then 8 else 0) + (if m.first >= 128 then 4 else 0) + m.pduType
      && p[2..] == (if WithBacklog(m) then [m.first % 64] else []) + rest
  {
    hide SourceField, DestField, KnownDerived, WithBacklog, DestIp;
    PayloadPieces(h, c, m);
    HeaderIs(h, c, m);
    hide Payload;
  }

  lemma PayloadPieces(h: Host, c: map<Key, Route>, m: Vx)
    ensures var p, rest := Payload(h, c, m), SourceField(h, m) + DestField(c, m) + m.pdu;
      && |p| >= 2 && p[0] == Header0(m.version, SourceField(h, m) != [])
      && p[1] == Header1(UdpFormat(c, m), WithBacklog(m), m.first >= 128, m.pduType)
      && p[2..] == Backlog(m) + rest
  {
    hide SourceField, DestField, UdpFormat, WithBacklog, Header0, Header1, Backlog;
    var head := [Header0(m.version, SourceField(h, m) != []), Header1(UdpFormat(c, m), WithBacklog(m), m.first >= 128, m.pduType)];
    Rebracket(head, Backlog(m), SourceField(h, m), DestField(c, m), m.pdu);
  }

  lemma Rebracket(a: seq<byte>, b: seq<byte>, c: seq<byte>, d: seq<byte>, e: seq<byte>)
    ensures (a + b + c + d + e)[|a|..] == b + (c + d + e)
    ensures forall k :: 0 <= k < |a| ==> (a + b + c + d + e)[k] == a[k]
  {}

  lemma HeaderIs(h: Host, c: map<Key, Route>, m: Vx)
    ensures UdpFormat(c, m) == match m.dest
                               case Broadcast(s) => if s == 0 then 2 else 3
                               case Multicast(_) => 4
                               case SubnetNode(_, _) => if KnownDerived(c, m) then 1 else 7
                               case MulticastAck(_, _, _, _) => if KnownDerived(c, m) then 5 else 7
                               case _ => 6
  {
    hide KnownDerived;
  }

  /** Nothing is sent exactly for versions other than the legacy and the enhanced one. Of what is received whole
      exactly those versions are dropped that are neither, and the address formats that are not known: 0 and
      those above 7; and of the rest exactly the mapping announcements are not passed on: application messages
      60 15, and 60 16 with a flag and 32 bytes of subnets. */
  lemma DroppedIff(h: Host, c: map<Key, Route>, m: Vx, me: Me, b: seq<byte>)
    ensures ToUdp(h, c, m) == Nothing <==> m.version == 1 || m.version == 3
    ensures var heard := FromUdp(h.ip, me, b).heard;
      && (heard != Short ==> (heard.Dropped? <==> b[0] / 16 >= 2 || b[1] / 16 == 0 || b[1] / 16 > 7))
      && (heard.Announcement? || heard.Passed? ==>
            var pdu := if heard.Announcement? then heard.a.pdu else heard.m.pdu;
            heard.Announcement? <==>
              b[1] % 4 == 3 && |pdu| >= 2 && pdu[0] == 0x60 && (pdu[1] == 0x15 || (pdu[1] == 0x16 && |pdu| >= 3 + 32)))
  {
    hide SourceOf, AnnouncedBy, LearnedFrom, Payload, DestIp, Delivered;
  }

  /** An acknowledged or request service, which the service bits of the PDU itself tell. */
  predicate WantsBacklog(m: Vx) {
    (m.dest.Broadcast? || m.dest.Multicast?) && m.pduType <= 1 && m.pdu != [] && m.pdu[0] / 16 % 4 == 0
  }

  predicate BacklogIsRight(m: Vx) {
    WithBacklog(m) == WantsBacklog(m)
  }

  predicate NoService(b: byte) {
    b / 16 % 4 == 0
  }

  /** The wrong byte is tested. What then decides is part of the address and not of the PDU: in the domains of 3
      bytes that addresses can carry all multicasts of TPDUs and SPDUs carry backlog information, which is right
      for the acknowledged services only; in other domains the last byte has to look like the PDU; in the
      zero-length domain the subnet or group addressed has to. Other messages carry none, as they should. */
  lemma BacklogRightIff(m: Vx)
    requires m.pdu != []
    ensures var d, wanted := m.domain, m.pdu[0] / 16 % 4 == 0;
      BacklogIsRight(m) <==>
        if m.pduType > 1 then true
        else match m.dest
          case Broadcast(subnet) =>
            if |d| == 3 && Mappable(d) then wanted else (NoService(if d != [] then d[|d| - 1] else subnet) <==> wanted)
          case Multicast(group) =>
            if |d| == 3 && Mappable(d) then wanted else (NoService(if d != [] then d[|d| - 1] else group) <==> wanted)
          case _ => true
  {}

  /** So no address is right for both kinds of service: of two messages that differ in their PDUs only, of
      which one wants the backlog and one does not, exactly one is treated right. */
  lemma BacklogRightForOne(m: Vx, other: seq<byte>)
    requires m.dest.Broadcast? || m.dest.Multicast?
    requires m.pduType <= 1 && m.pdu != [] && other != []
    requires NoService(m.pdu[0]) != NoService(other[0])
    ensures BacklogIsRight(m) != BacklogIsRight(m.(pdu := other))
  {
    assert WithBacklog(m) == WithBacklog(m.(pdu := other));
  }

  /** The bytes that the network layer hands down, as this layer sees them. */
  function FromNetworkLayer(c: Config, m: Msg, first: byte): Vx
    requires Sendable(c, m) && (OwnDomain(c, m) || !m.dest.MulticastAck?)
  {
    DomainLengthsRoundTrip(|DomainIdOf(c, m)|, 0);
    Vx(first, m.version, m.pduType, SourceBytes(c, m)[0], SourceBytes(c, m)[1], m.dest, DomainIdOf(c, m), m.pdu)
  }

  /** An NPDU crosses the UDP link unchanged: what the receiver passes up behind the priority byte is byte
      for byte what the sender's network layer built. */
  lemma NpduCrosses(c: Config, m: Msg, first: byte, h: Host, cache: map<Key, Route>, me: Me)
    requires Sendable(c, m) && (OwnDomain(c, m) || !m.dest.MulticastAck?)
    requires m.version == LEGACY || m.version == ENHANCED
    requires !IsAnnouncement(m.pduType, m.pdu)
    requires h.connected && Mappable(DomainIdOf(c, m))
    requires var v := FromNetworkLayer(c, m, first);
      AtAddressee(cache, v, me) && SourceReadable(h, v) && (v.dest.MulticastAck? ==> KnownDerived(cache, v))
    ensures var v := FromNetworkLayer(c, m, first);
      var heard := FromUdp(h.ip, me, ToUdp(h, cache, v).payload).heard;
      heard.Passed? && VxBytes(heard.m)[1..] == Npdu(c, m)
  {
    var v := FromNetworkLayer(c, m, first);
    FromNetworkBytes(c, m, first);
    SameBytesOnWire(v);
    hide FromNetworkLayer, Npdu, VxBytes, Expected, FromUdp, SourceReadable, Mappable, Sendable, DomainIdOf;
    RoundTripIff(h, cache, v, me);
  }

  lemma FromNetworkBytes(c: Config, m: Msg, first: byte)
    requires Sendable(c, m) && (OwnDomain(c, m) || !m.dest.MulticastAck?)
    ensures var v := FromNetworkLayer(c, m, first);
      && (v.srcNode >= 128 || v.dest.MulticastAck?)
      && v.version == m.version && v.pduType == m.pduType && v.pdu == m.pdu && v.domain == DomainIdOf(c, m)
      && VxBytes(v)[1..] == Npdu(c, m)
  {
    var v := FromNetworkLayer(c, m, first);
    BytesBehindFirst(v);
    assert SourceBytes(c, m) == [v.srcSubnet, v.srcNode];
    hide DestBytes, Sendable, VxBytes, FirstByte, Format, EncodeDomainLength, DomainIdOf;
  }

  lemma SameBytesOnWire(v: Vx)
    ensures VxBytes(Expected(v))[1..] == VxBytes(v)[1..]
  {
    assert DestBytes(OnWire(v.dest)) == DestBytes(v.dest) && Format(OnWire(v.dest)) == Format(v.dest);
    BytesBehindFirst(v);
    BytesBehindFirst(Expected(v));
    hide DestBytes, VxBytes, OnWire, Format, WithBacklog;
  }

  lemma BytesBehindFirst(v: Vx)
    ensures 0 <= EncodeDomainLength(|v.domain|) < 4
    ensures VxBytes(v)[1..]
      == [FirstByte(v.version, v.pduType, Format(v.dest), EncodeDomainLength(|v.domain|))] + [v.srcSubnet, v.srcNode]
         + DestBytes(v.dest) + v.domain + v.pdu
  {
    DomainLengthsRoundTrip(|v.domain|, 0);
    hide DestBytes, FirstByte, EncodeDomainLength, Format;
  }

  lemma PayloadParts(h: Host, c: map<Key, Route>, m: Vx)
    requires m.version == LEGACY || m.version == ENHANCED
    ensures ToUdp(h, c, m).Datagram? && ToUdp(h, c, m).payload == [Sent0(h, m), Sent1(c, m)] + Backlog(m) + SentRest(h, c, m)
  {
    hide SourceField, DestField, UdpFormat, WithBacklog, Header0, Header1;
  }

  /** The header bytes, the source and the target that a payload `[b0, b1] + backlog + r` is read as. */
  ghost predicate ReadsAs(ip: Ip, me: Me, b0: byte, b1: byte, backlog: seq<byte>, r: seq<byte>, s: Source, t: Target) {
    && b0 / 16 <= 1 && |backlog| == Bit(b1 / 8 % 2 == 1)
    && s == SourceOf(ip, b0 % 2 == 1, r) && s.Source?
    && t == TargetOf(me, b1 / 16, s.rest) && t.Target? && !t.dest.UnknownMode?
  }

  /** A payload is read part by part. */
  lemma ReceiveParts(ip: Ip, me: Me, b0: byte, b1: byte, backlog: seq<byte>, r: seq<byte>, s: Source, t: Target)
    requires ReadsAs(ip, me, b0, b1, backlog, r, s, t)
    ensures s.node >= 128
    ensures FromUdp(ip, me, [b0, b1] + backlog + r).heard ==
      Assemble(b0, b1, 128 * Bit(b1 / 4 % 2 == 1) + (if backlog == [] then 0 else backlog[0] % 64), s, t)
  {
    var b := [b0, b1] + backlog + r;
    assert b[2 + |backlog|..] == r;
    assert SourceOf(ip, b0 % 2 == 1, r).node >= 128;
    hide SourceOf, TargetOf, Assemble, LearnedFrom;
  }

  lemma ReceiveLearns(ip: Ip, me: Me, b0: byte, b1: byte, backlog: seq<byte>, r: seq<byte>, s: Source, t: Target)
    requires ReadsAs(ip, me, b0, b1, backlog, r, s, t)
    ensures var got := FromUdp(ip, me, [b0, b1] + backlog + r);
      !got.heard.Announcement? ==> got.learned == [LearnedFrom(ip, b0 % 2 == 1, s)]
  {
    var b := [b0, b1] + backlog + r;
    assert b[2 + |backlog|..] == r;
    assert SourceOf(ip, b0 % 2 == 1, r).node >= 128;
    hide SourceOf, TargetOf, Assemble, LearnedFrom;
  }

  /** What is assembled is the message exactly if domain and target are. */
  lemma AssembleIff(m: Vx, b0: byte, b1: byte, s: Source, t: Target)
    requires m.version == LEGACY || m.version == ENHANCED
    requires m.srcNode >= 128 || m.dest.MulticastAck?
    requires s.Source? && t.Target? && !t.dest.UnknownMode? && s.node == 128 + m.srcNode % 128 && |s.domain| in {0, 1, 3, 6}
    requires b0 / 16 == Bit(m.version != LEGACY) && b1 % 4 == m.pduType && s.subnet == m.srcSubnet
    requires !IsAnnouncement(m.pduType, m.pdu)
    requires t == Target(OnWire(m.dest), m.pdu) <==> t.dest == OnWire(m.dest)
    ensures Assemble(b0, b1, Expected(m).first, s, t) == Passed(Expected(m)) <==>
      Delivered(s.domain) == m.domain && t.dest == OnWire(m.dest)
  {
    hide Delivered, IsAnnouncement, WithBacklog;
    assert OnWire(m.dest).MulticastAck? == m.dest.MulticastAck?;
    hide OnWire;
  }
}
