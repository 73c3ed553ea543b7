/** The network layer PDU of lcs_network.c (section 6 of ISO/IEC 14908-1): what NetworkLayerSend builds
    and what the address filter of NetworkLayerReceive lets through. */
module NetworkPdu {
  import opened Bytes

  const FLEX_DOMAIN := 2

  // ------------------------------------------------------------------
  // Node configuration and messages
  // ------------------------------------------------------------------

  /** A domain table entry; `nodeClone` keeps the non-clone bit above the 7-bit node number. */
  datatype RawDomain = DomainEntry(invalid: bool, idLen: nat, id: seq<byte>, subnet: byte, nodeClone: byte)
  type Domain = d: RawDomain | d.idLen <= 6 && |d.id| == 6 witness DomainEntry(true, 0, [0, 0, 0, 0, 0, 0], 0, 0)

  datatype GroupEntry = GroupEntry(isGroup: bool, group: byte, domainIndex: nat)

  /** Node state bits and tables. Two states matter: the configuration counts as valid (receive), and
      the node is on line (send). */
  datatype RawConfig = Config(configured: bool, onLine: bool, twoDomains: bool, domains: seq<Domain>,
                              groups: seq<GroupEntry>, uniqueId: seq<byte>, outBufSize: nat)
  type Config = c: RawConfig | |c.domains| == 2 && |c.uniqueId| == 6
    witness Config(false, false, false,
                   [DomainEntry(true, 0, [0, 0, 0, 0, 0, 0], 0, 0), DomainEntry(true, 0, [0, 0, 0, 0, 0, 0], 0, 0)],
                   [], [0, 0, 0, 0, 0, 0], 0)

  function NumDomains(c: Config): nat {
    if c.twoDomains then 2 else 1
  }

  datatype RawDest =
    | Broadcast(subnet: byte)
    | Multicast(group: byte)
    | SubnetNode(toSubnet: byte, toNode: byte)
    | MulticastAck(ackSubnet: byte, ackNode: byte, ackGroup: byte, member: byte)
    | UniqueNodeId(routeSubnet: byte, uid: seq<byte>)
    | UnknownMode
  type Dest = d: RawDest | d.UniqueNodeId? ==> |d.uid| == 6 witness UnknownMode

  /** A message in an output queue of the network layer. */
  datatype RawMsg = Msg(version: nat, pduType: nat, dest: Dest, domainIndex: nat, flexLen: nat, flexId: seq<byte>,
                        dropIfUnconfigured: bool, pdu: seq<byte>, tag: int)
  type Msg = m: RawMsg | m.version < 4 && m.pduType < 4 && m.flexLen <= 6 && |m.flexId| == 6
    witness RawMsg.Msg(0, 0, UnknownMode, 0, 0, [0, 0, 0, 0, 0, 0], false, [], 0)

  const APDU_TYPE := 3

  // ------------------------------------------------------------------
  // Domain lengths
  // ------------------------------------------------------------------

  /** `DecodeDomainLength` */
  function DecodeDomainLength(code: nat): nat {
    match code
    case 1 => 1
    case 2 => 3
    case 3 => 6
    case _ => 0
  }

  /** `EncodeDomainLength`; -1 for a length that has no code. */
  function EncodeDomainLength(len: nat): int {
    match len
    case 0 => 0
    case 1 => 1
    case 3 => 2
    case 6 => 3
    case _ => -1
  }

  /** The two are inverse to each other on the four lengths that exist. */
  lemma DomainLengthsRoundTrip(len: nat, code: nat)
    ensures EncodeDomainLength(len) >= 0 ==> EncodeDomainLength(len) < 4 && DecodeDomainLength(EncodeDomainLength(len)) == len
    ensures code < 4 ==> EncodeDomainLength(DecodeDomainLength(code)) == code
    ensures EncodeDomainLength(len) >= 0 <==> len in {0, 1, 3, 6}
  {}

  // ------------------------------------------------------------------
  // Building
  // ------------------------------------------------------------------

  function Format(d: Dest): nat {
    match d
    case Broadcast(_) => 0
    case Multicast(_) => 1
    case SubnetNode(_, _) => 2
    case MulticastAck(_, _, _, _) => 2
    case _ => 3
  }

  /** A node byte with the selection bit set. */
  function Selected(node: byte): byte {
    128 + node % 128
  }

  function DestBytes(d: Dest): seq<byte> {
    match d
    case Broadcast(s) => [s]
    case Multicast(g) => [g]
    case SubnetNode(s, n) => [s, Selected(n)]
    case MulticastAck(s, n, g, m) => [s, Selected(n), g, m]
    case UniqueNodeId(s, uid) => [s] + uid
    case UnknownMode => []
  }

  /** Does the message go out in one of the node's own domains? */
  predicate OwnDomain(c: Config, m: Msg) {
    m.domainIndex < NumDomains(c)
  }

  function DomainIdOf(c: Config, m: Msg): seq<byte> {
    if OwnDomain(c, m) then c.domains[m.domainIndex].id[..c.domains[m.domainIndex].idLen] else m.flexId[..m.flexLen]
  }

  /** Source subnet and node: the selection bit is off for group acknowledgements only, and a foreign
      domain has source 0/0. */
  function SourceBytes(c: Config, m: Msg): (b: seq<byte>)
    ensures |b| == 2
  {
    if OwnDomain(c, m) then
      [c.domains[m.domainIndex].subnet,
       (if m.dest.MulticastAck? then 0 else 128) + c.domains[m.domainIndex].nodeClone % 128]
    else [0, 128]
  }

  function FirstByte(version: nat, pduType: nat, format: nat, lengthCode: nat): byte
    requires version < 4 && pduType < 4 && format < 4 && lengthCode < 4
  {
    64 * version + 16 * pduType + 4 * format + lengthCode
  }

  predicate Sendable(c: Config, m: Msg) {
    && !m.dest.UnknownMode?
    && !(m.dropIfUnconfigured && m.domainIndex != FLEX_DOMAIN && !c.onLine)
    && !(OwnDomain(c, m) && c.domains[m.domainIndex].invalid)
    && EncodeDomainLength(|DomainIdOf(c, m)|) >= 0
  }

  /** The NPDU, whatever its size. */
  function Npdu(c: Config, m: Msg): seq<byte>
    requires Sendable(c, m)
  {
    DomainLengthsRoundTrip(|DomainIdOf(c, m)|, 0);
    [FirstByte(m.version, m.pduType, Format(m.dest), EncodeDomainLength(|DomainIdOf(c, m)|))]
    + SourceBytes(c, m) + DestBytes(m.dest) + DomainIdOf(c, m) + m.pdu
  }

  /** The NPDU reaches the link layer queue (if that has a slot). */
  predicate Built(c: Config, m: Msg) {
    Sendable(c, m) && |Npdu(c, m)| <= c.outBufSize
  }

  /** A packet is built exactly if the address mode is known, the node may send (a message that asks for it waits
      for the node to be on line, unless the domain is a foreign one), a domain of its own is valid, the domain
      length has a code, and everything fits: 3 bytes, the destination, the domain and the PDU. */
  lemma BuiltIff(c: Config, m: Msg)
    ensures Built(c, m) <==>
      var own := m.domainIndex == 0 || (m.domainIndex == 1 && c.twoDomains);
      var len := if own then c.domains[m.domainIndex].idLen else m.flexLen;
      && !m.dest.UnknownMode?
      && (m.dropIfUnconfigured ==> c.onLine || m.domainIndex == FLEX_DOMAIN)
      && (own ==> !c.domains[m.domainIndex].invalid)
      && len in {0, 1, 3, 6}
      && 3 + (match m.dest
              case Broadcast(_) => 1
              case Multicast(_) => 1
              case SubnetNode(_, _) => 2
              case MulticastAck(_, _, _, _) => 4
              case _ => 7) + len + |m.pdu| <= c.outBufSize
  {
    if Sendable(c, m) {
      DomainLengthsRoundTrip(|DomainIdOf(c, m)|, 0);
      PacketSize(c, m);
    }
    hide Npdu, FirstByte;
  }

  lemma PacketSize(c: Config, m: Msg)
    requires Sendable(c, m)
    ensures |Npdu(c, m)| == 3 + |DestBytes(m.dest)| + |DomainIdOf(c, m)| + |m.pdu|
  {}

  // ------------------------------------------------------------------
  // Receiving
  // ------------------------------------------------------------------

  /** A received packet: what the upper layers are told, with raw node bytes. */
  datatype Indication = Indication(
    version: nat, pduType: nat, srcSubnet: byte, srcNode: byte, dest: Dest,
    domainIndex: nat, domainId: seq<byte>, pdu: seq<byte>)

  datatype Verdict = Dropped | Accepted(ind: Indication)

  /** A packet slot holds at least the longest header. */
  const MIN_SLOT := 16

  function DestOf(b: seq<byte>): Dest
    requires |b| >= MIN_SLOT
  {
    match b[0] / 4 % 4
    case 0 => Broadcast(b[3])
    case 1 => Multicast(b[3])
    case 2 => if b[2] >= 128 then SubnetNode(b[3], b[4]) else MulticastAck(b[3], b[4], b[5], b[6])
    case _ => UniqueNodeId(b[3], b[4..10])
  }

  /** Where the domain starts. */
  function DomainAt(b: seq<byte>): nat
    requires |b| >= MIN_SLOT
  {
    1 + match b[0] / 4 % 4
        case 0 => 3
        case 1 => 3
        case 2 => if b[2] >= 128 then 4 else 6
        case _ => 9
  }

  predicate InDomain(c: Config, index: nat, id: seq<byte>)
    requires index < 2
  {
    c.configured && !c.domains[index].invalid && |id| == c.domains[index].idLen && id == c.domains[index].id[..|id|]
  }

  /** The domain table index a packet counts as received in. */
  function DomainIndexOf(c: Config, id: seq<byte>): nat {
    if InDomain(c, 0, id) then 0
    else if c.twoDomains && InDomain(c, 1, id) then 1
    else FLEX_DOMAIN
  }

  /** `IsGroupMember` */
  predicate IsGroupMember(c: Config, domainIndex: nat, group: byte) {
    exists k :: 0 <= k < |c.groups| && c.groups[k] == GroupEntry(true, group, domainIndex)
  }

  /** The source is this node itself (not looked at in the flex domain or at index 1). */
  predicate FromMe(c: Config, index: nat, srcSubnet: byte, srcNode: byte) {
    index == 0 && srcSubnet == c.domains[0].subnet && srcNode == c.domains[0].nodeClone
  }

  /** The destination is for this node, given the domain index. */
  predicate ForMe(c: Config, index: nat, d: Dest) {
    match d
    case Broadcast(s) => index >= 2 || s == 0 || s == c.domains[index].subnet
    case Multicast(g) => index >= 2 || IsGroupMember(c, index, g)
    case SubnetNode(s, n) => index >= 2 || (s == c.domains[index].subnet && n == c.domains[index].nodeClone)
    case MulticastAck(s, n, g, _) =>
      index >= 2 || (s == c.domains[index].subnet && n == c.domains[index].nodeClone && IsGroupMember(c, index, g))
    case UniqueNodeId(_, uid) => uid == c.uniqueId
    case UnknownMode => false
  }

  /** What an unconfigured node may hear, and what a configured one may hear in a foreign domain. */
  predicate StateAllows(c: Config, index: nat, d: Dest) {
    if c.configured then index != FLEX_DOMAIN || d.UniqueNodeId? else d.Broadcast? || d.UniqueNodeId?
  }

  /** The filter of NetworkLayerReceive on a slot of which the first `size` bytes are the packet. */
  function Receive(c: Config, b: seq<byte>, size: nat): Verdict
    requires |b| >= MIN_SLOT && size <= |b|
  {
    var len := DecodeDomainLength(b[0] % 4);
    if len != 0 && len != 1 && len != 3 then Dropped
    else
      var at := DomainAt(b);
      var id := b[at..at + len];
      var index := DomainIndexOf(c, id);
      var dest := DestOf(b);
      if FromMe(c, index, b[1], b[2]) || !ForMe(c, index, dest) || !StateAllows(c, index, dest) || size <= at + len
      then Dropped
      else Accepted(Indication(b[0] / 64, b[0] / 16 % 4, b[1], b[2], dest, index, id, b[at + len..size]))
  }

  // ------------------------------------------------------------------
  // Round trip
  // ------------------------------------------------------------------

  /** The destination as it travels: the selection bit set on node numbers. */
  function OnWire(d: Dest): Dest {
    match d
    case SubnetNode(s, n) => SubnetNode(s, Selected(n))
    case MulticastAck(s, n, g, m) => MulticastAck(s, Selected(n), g, m)
    case _ => d
  }

  lemma FirstByteFields(version: nat, pduType: nat, format: nat, lengthCode: nat)
    requires version < 4 && pduType < 4 && format < 4 && lengthCode < 4
    ensures var b := FirstByte(version, pduType, format, lengthCode);
      b / 64 == version && b / 16 % 4 == pduType && b / 4 % 4 == format && b % 4 == lengthCode
  {
    var b := FirstByte(version, pduType, format, lengthCode);
    assert b / 4 == 16 * version + 4 * pduType + format;
    assert b / 16 == 4 * version + pduType;
  }

  /** What a message that goes out on an own domain or a foreign one looks like in the receiving slot. */
  lemma FieldsOnWire(c: Config, m: Msg, b: seq<byte>)
    requires Sendable(c, m) && |b| >= MIN_SLOT && Npdu(c, m) <= b
    requires OwnDomain(c, m) || !m.dest.MulticastAck?
    ensures DestOf(b) == OnWire(m.dest)
    ensures b[0] / 64 == m.version && b[0] / 16 % 4 == m.pduType
    ensures DecodeDomainLength(b[0] % 4) == |DomainIdOf(c, m)|
    ensures b[1] == SourceBytes(c, m)[0] && b[2] == SourceBytes(c, m)[1]
    ensures var at, len := DomainAt(b), |DomainIdOf(c, m)|;
      && at + len + |m.pdu| == |Npdu(c, m)|
      && b[at..at + len] == DomainIdOf(c, m)
      && b[at + len..|Npdu(c, m)|] == m.pdu
  {
    var id := DomainIdOf(c, m);
    DomainLengthsRoundTrip(|id|, 0);
    FirstByteFields(m.version, m.pduType, Format(m.dest), EncodeDomainLength(|id|));
    var n, d, src := Npdu(c, m), DestBytes(m.dest), SourceBytes(c, m);
    Pieces(n[0], src, d, id, m.pdu, b);
    assert n == [n[0]] + src + d + id + m.pdu;
    assert b[3..3 + |d|] == d;
    assert forall k :: 3 <= k < 3 + |d| ==> b[k] == b[3..3 + |d|][k - 3];
    if m.dest.UniqueNodeId? { assert b[4..10] == d[1..7]; }
  }

  lemma Pieces(first: byte, src: seq<byte>, d: seq<byte>, id: seq<byte>, pdu: seq<byte>, b: seq<byte>)
    requires |src| == 2 && [first] + src + d + id + pdu <= b
    ensures b[0] == first && b[1] == src[0] && b[2] == src[1]
    ensures b[3..3 + |d|] == d
    ensures b[3 + |d|..3 + |d| + |id|] == id
    ensures b[3 + |d| + |id|..3 + |d| + |id| + |pdu|] == pdu
  {
    var n := [first] + src + d + id + pdu;
    assert b[..|n|] == n;
    assert n[3..3 + |d|] == d && n[3 + |d|..3 + |d| + |id|] == id && n[3 + |d| + |id|..] == pdu;
    assert b[3..3 + |d|] == b[..|n|][3..3 + |d|];
    assert b[3 + |d|..3 + |d| + |id|] == b[..|n|][3 + |d|..3 + |d| + |id|];
    assert b[3 + |d| + |id|..|n|] == b[..|n|][3 + |d| + |id|..|n|];
  }

  /** At any node that accepts it, a message arrives as it was sent, in every address mode: version, PDU
      type, source, destination, domain and PDU bytes. Only domain lengths 0, 1 and 3 are accepted. */
  lemma AcceptedAsSent(c: Config, m: Msg, r: Config, b: seq<byte>)
    requires Built(c, m) && |b| >= MIN_SLOT && Npdu(c, m) <= b
    requires OwnDomain(c, m) || !m.dest.MulticastAck?
    ensures var v, id := Receive(r, b, |Npdu(c, m)|), DomainIdOf(c, m);
      && (|id| == 6 ==> v == Dropped)
      && (v.Accepted? ==>
            v == Accepted(Indication(m.version, m.pduType, SourceBytes(c, m)[0], SourceBytes(c, m)[1],
                                     OnWire(m.dest), DomainIndexOf(r, id), id, m.pdu)))
  {
    FieldsOnWire(c, m, b);
  }

  /** A node that shares domain table entry 0 with the sender: configured, the same domain, not a clone. */
  ghost predicate SharesDomain(c: Config, r: Config) {
    && r.configured
    && !c.domains[0].invalid && !r.domains[0].invalid
    && c.domains[0].idLen == r.domains[0].idLen && c.domains[0].idLen in {0, 1, 3}
    && c.domains[0].id[..c.domains[0].idLen] == r.domains[0].id[..r.domains[0].idLen]
    && r.domains[0].nodeClone >= 128
  }

  /** Some entry of the address table is for the group in the domain of index 0. */
  ghost predicate JoinedGroup(r: Config, group: byte) {
    exists k :: 0 <= k < |r.groups| && r.groups[k].isGroup && r.groups[k].group == group && r.groups[k].domainIndex == 0
  }

  /** The node has the subnet and the node number (the high bit does not count). */
  predicate Has(r: Config, subnet: byte, node: byte) {
    subnet == r.domains[0].subnet && node % 128 == r.domains[0].nodeClone % 128
  }

  /** In a common domain, in every address mode: a message with something in it is accepted exactly by the nodes
      in the subnet that a broadcast goes to, or all of them; by the members of a group; by the node with the
      subnet and node number, for a group acknowledgement if it is a member; and by the owner of a unique ID.
      The sender itself takes back only a group acknowledgement, whose source does not look like a node's. */
  lemma AcceptedIff(c: Config, m: Msg, r: Config, b: seq<byte>)
    requires Built(c, m) && m.domainIndex == 0
    requires |b| >= MIN_SLOT && Npdu(c, m) <= b
    requires SharesDomain(c, r)
    ensures Receive(r, b, |Npdu(c, m)|).Accepted? <==>
      && m.pdu != [] && (m.dest.MulticastAck? || !Has(r, c.domains[0].subnet, c.domains[0].nodeClone))
      && match m.dest
         case Broadcast(s) => s == 0 || s == r.domains[0].subnet
         case Multicast(g) => JoinedGroup(r, g)
         case SubnetNode(s, n) => Has(r, s, n)
         case MulticastAck(s, n, g, _) => Has(r, s, n) && JoinedGroup(r, g)
         case UniqueNodeId(_, uid) => uid == r.uniqueId
         case UnknownMode => false
  {
    FieldsOnWire(c, m, b);
    var id := DomainIdOf(c, m);
    assert InDomain(r, 0, id);
    forall g: byte ensures IsGroupMember(r, 0, g) <==> JoinedGroup(r, g) { MemberIsJoined(r, g); }
    hide Npdu, DestOf, DomainAt, OnWire, IsGroupMember, JoinedGroup, Built, DecodeDomainLength;
    assert DomainIndexOf(r, id) == 0;
    Filtered(c, m, r, b);
  }

  lemma MemberIsJoined(r: Config, g: byte)
    ensures IsGroupMember(r, 0, g) <==> JoinedGroup(r, g)
  {
    if JoinedGroup(r, g) {
      var k :| 0 <= k < |r.groups| && r.groups[k].isGroup && r.groups[k].group == g && r.groups[k].domainIndex == 0;
      assert r.groups[k] == GroupEntry(true, g, 0);
    }
  }

  /** What the filter looks at in a message that was built. */
  lemma Filtered(c: Config, m: Msg, r: Config, b: seq<byte>)
    requires Built(c, m) && |b| >= MIN_SLOT && Npdu(c, m) <= b
    requires OwnDomain(c, m) || !m.dest.MulticastAck?
    ensures var id, dest := DomainIdOf(c, m), OnWire(m.dest);
      var index, src := DomainIndexOf(r, id), SourceBytes(c, m);
      Receive(r, b, |Npdu(c, m)|).Accepted? <==>
        |id| != 6 && !FromMe(r, index, src[0], src[1]) && ForMe(r, index, dest) && StateAllows(r, index, dest) && m.pdu != []
  {
    FieldsOnWire(c, m, b);
    DomainLengthsRoundTrip(|DomainIdOf(c, m)|, 0);
    hide Npdu, DestOf, DomainAt, OnWire, FromMe, ForMe, StateAllows, SourceBytes, DomainIndexOf, Built;
  }

  /** A node that does not have the domain accepts a message to its own unique ID, and as long as it is not
      configured every broadcast; nothing else. */
  lemma ForeignAcceptedIff(c: Config, m: Msg, r: Config, b: seq<byte>)
    requires Built(c, m) && |b| >= MIN_SLOT && Npdu(c, m) <= b
    requires OwnDomain(c, m) || !m.dest.MulticastAck?
    requires DomainIndexOf(r, DomainIdOf(c, m)) == FLEX_DOMAIN
    ensures Receive(r, b, |Npdu(c, m)|).Accepted? <==>
      |DomainIdOf(c, m)| != 6 && m.pdu != []
      && ((m.dest.UniqueNodeId? && m.dest.uid == r.uniqueId) || (m.dest.Broadcast? && !r.configured))
  {
    Filtered(c, m, r, b);
    hide Npdu, DomainIdOf, DomainIndexOf, Built, Receive;
  }

  /** A valid entry of the domain table has this ID. */
  predicate IsIn(r: Config, i: nat, id: seq<byte>)
    requires i < 2 && |id| <= 6
  {
    !r.domains[i].invalid && r.domains[i].idLen == |id| && r.domains[i].id[..|id|] == id
  }

  /** A node has a domain of the message exactly if it is configured and a valid table entry has its ID; the first
      one counts, and the second one only if there are two. */
  lemma DomainIndexIff(r: Config, id: seq<byte>)
    requires |id| <= 6
    ensures DomainIndexOf(r, id) == 0 <==> r.configured && IsIn(r, 0, id)
    ensures DomainIndexOf(r, id) == 1 <==> r.configured && !IsIn(r, 0, id) && r.twoDomains && IsIn(r, 1, id)
    ensures DomainIndexOf(r, id) == FLEX_DOMAIN <==> !r.configured || !(IsIn(r, 0, id) || (r.twoDomains && IsIn(r, 1, id)))
  {}

  /** Among the nodes of a domain with distinct subnet/node pairs, a subnet/node message is accepted by
      exactly the node it is addressed to, unless that is the sender itself or there is nothing in it. */
  lemma AcceptedByAddressee(c: Config, m: Msg, r: Config, b: seq<byte>)
    requires Built(c, m) && m.dest.SubnetNode? && m.domainIndex == 0
    requires |b| >= MIN_SLOT && Npdu(c, m) <= b
    requires SharesDomain(c, r)
    ensures var mine := c.domains[0].subnet == r.domains[0].subnet && c.domains[0].nodeClone % 128 == r.domains[0].nodeClone % 128;
      Receive(r, b, |Npdu(c, m)|).Accepted? <==>
        (m.dest.toSubnet == r.domains[0].subnet && m.dest.toNode % 128 == r.domains[0].nodeClone % 128
         && !mine && m.pdu != [])
  {
    hide Npdu, Receive, Built;
    AcceptedIff(c, m, r, b);
  }

  /** A group acknowledgement in a foreign domain keeps its selection bit, so it reads as a subnet/node
      message: together with the round trip above, exactly the other messages survive the wire. */
  lemma ForeignAckIsMisread(c: Config, m: Msg, b: seq<byte>)
    requires Sendable(c, m) && m.dest.MulticastAck? && !OwnDomain(c, m) && |b| >= MIN_SLOT && Npdu(c, m) <= b
    ensures DestOf(b) == SubnetNode(m.dest.ackSubnet, Selected(m.dest.ackNode))
    ensures DomainAt(b) + 2 + |DomainIdOf(c, m)| + |m.pdu| == |Npdu(c, m)|
  {
    DomainLengthsRoundTrip(|DomainIdOf(c, m)|, 0);
    FirstByteFields(m.version, m.pduType, 2, EncodeDomainLength(|DomainIdOf(c, m)|));
    var n, d, src := Npdu(c, m), DestBytes(m.dest), SourceBytes(c, m);
    Pieces(n[0], src, d, DomainIdOf(c, m), m.pdu, b);
    assert b[3..3 + |d|][0] == b[3] && b[3..3 + |d|][1] == b[4];
  }
}
