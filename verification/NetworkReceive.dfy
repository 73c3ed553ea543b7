/** The receive side of lcs_network.c: NetworkLayerReceive takes one packet off the input queue, filters it,
    and hands the PDU to the application queue or to the transaction queue. */
module NetworkReceive {
  import opened Bytes
  import opened SlotQueue
  import opened NetworkPdu
  import NetworkLayer

  /** A slot of the input queue: its bytes, of which the first `size` are the packet. */
  datatype RawPacket = Packet(bytes: seq<byte>, size: nat)
  type Packet = p: RawPacket | |p.bytes| >= MIN_SLOT && p.size <= |p.bytes|
    witness Packet(seq(MIN_SLOT, _ => 0), 0)

  /** The input queue and the two queues towards the upper layers. */
  datatype Inbound = Inbound(nwIn: Fifo<Packet>, appIn: Fifo<Indication>, tsaIn: Fifo<Indication>)

  /** `NetworkLayerReceive`; the two limits are the PDU sizes that the upper layers have buffers for. */
  function AfterReceive(c: Config, appLimit: nat, tsaLimit: nat, n: Inbound): Inbound {
    if n.nwIn.entries == [] then n
    else
      var p := n.nwIn.entries[0];
      var rest := n.(nwIn := n.nwIn.DropHead());
      match Receive(c, p.bytes, p.size)
      case Dropped => rest
      case Accepted(ind) =>
        if ind.pduType == APDU_TYPE then
          if n.appIn.Full() || |ind.pdu| > appLimit then rest else rest.(appIn := n.appIn.Write(ind))
        else
          if n.tsaIn.Full() || |ind.pdu| > tsaLimit then rest else rest.(tsaIn := n.tsaIn.Write(ind))
  }

  /** The upper queue a PDU type belongs to. */
  function Upper(n: Inbound, pduType: nat): Fifo<Indication> {
    if pduType == APDU_TYPE then n.appIn else n.tsaIn
  }

  /** Every turn, whatever was received: it takes the first packet, hands its PDU to the queue for its type exactly
      if the filter accepts it, that queue has a slot that QueueWrite accepts, and the PDU fits, and leaves
      everything else alone. */
  lemma ReceiveIff(c: Config, appLimit: nat, tsaLimit: nat, n: Inbound)
    requires n.nwIn.entries != []
    ensures var n', p := AfterReceive(c, appLimit, tsaLimit, n), n.nwIn.entries[0];
      var v := Receive(c, p.bytes, p.size);
      && n'.nwIn.entries == n.nwIn.entries[1..] && n'.nwIn.capacity == n.nwIn.capacity
      && (n'.appIn == n.appIn.(entries := n'.appIn.entries) && n'.tsaIn == n.tsaIn.(entries := n'.tsaIn.entries))
      && n'.appIn.entries == n.appIn.entries
           + (if v.Accepted? && v.ind.pduType == 3 && n.appIn.HasRoom() && |v.ind.pdu| <= appLimit then [v.ind] else [])
      && n'.tsaIn.entries == n.tsaIn.entries
           + (if v.Accepted? && v.ind.pduType != 3 && n.tsaIn.HasRoom() && |v.ind.pdu| <= tsaLimit then [v.ind] else [])
  {
    assert n.appIn.entries + [] == n.appIn.entries && n.tsaIn.entries + [] == n.tsaIn.entries;
    hide Receive;
  }

  /** A message between two nodes of one domain, in every address mode, from the output queue of the one to the
      upper layers of the other: when the sender gets its turn, the bytes that it puts on the link queue,
      received in any slot that holds them, become one indication with the fields of the message at the end of
      the queue for its PDU type, exactly if the receiver is one it is for, the message is not empty and fits,
      and that queue has a slot that QueueWrite accepts. */
  lemma SendThenReceive(c: Config, out: NetworkLayer.Net, priority: bool, m: Msg, r: Config, appLimit: nat,
                        tsaLimit: nat, n: Inbound, p: Packet)
    requires NetworkLayer.TurnOf(out) == NetworkLayer.Serve(priority) && NetworkLayer.Takes(out, priority)
    requires out.Out(priority).entries[0] == m && Built(c, m) && m.domainIndex == 0
    requires out.Link(priority).HasRoom() && SharesDomain(c, r)
    requires var link := NetworkLayer.AfterSend(c, out).Link(priority).entries;
      p.size == |link[|link| - 1]| && link[|link| - 1] <= p.bytes
    requires n.nwIn.entries != [] && n.nwIn.entries[0] == p
    ensures var before, after := Upper(n, m.pduType), Upper(AfterReceive(r, appLimit, tsaLimit, n), m.pduType);
      var ind := Indication(m.version, m.pduType, c.domains[0].subnet,
                            (if m.dest.MulticastAck? then 0 else 128) + c.domains[0].nodeClone % 128,
                            OnWire(m.dest), 0, DomainIdOf(c, m), m.pdu);
      after.entries == before.entries + [ind] <==>
        && m.pdu != [] && (m.dest.MulticastAck? || !Has(r, c.domains[0].subnet, c.domains[0].nodeClone))
        && (match m.dest
            case Broadcast(s) => s == 0 || s == r.domains[0].subnet
            case Multicast(g) => JoinedGroup(r, g)
            case SubnetNode(s, node) => Has(r, s, node)
            case MulticastAck(s, node, g, _) => Has(r, s, node) && JoinedGroup(r, g)
            case UniqueNodeId(_, uid) => uid == r.uniqueId
            case UnknownMode => false)
        && before.HasRoom() && |m.pdu| <= if m.pduType == APDU_TYPE then appLimit else tsaLimit
  {
    var link := NetworkLayer.AfterSend(c, out).Link(priority).entries;
    assert link[|link| - 1] == Npdu(c, m);
    AcceptedIff(c, m, r, p.bytes);
    AcceptedAsSent(c, m, r, p.bytes);
    assert InDomain(r, 0, DomainIdOf(c, m));
    assert SourceBytes(c, m) == [c.domains[0].subnet, (if m.dest.MulticastAck? then 0 else 128) + c.domains[0].nodeClone % 128];
    ReceiveIff(r, appLimit, tsaLimit, n);
    hide Npdu, Receive, Built, NetworkLayer.AfterSend, DomainIdOf, SharesDomain, InDomain, AfterReceive, OnWire, SourceBytes;
    var before := Upper(n, m.pduType).entries;
    assert before + [] == before;
  }

  class NetworkReceiver {
    var nwInQ: Fifo<Packet>
    var appInQ: Fifo<Indication>
    var tsaInQ: Fifo<Indication>
    var config: Config
    const appInBufSize: nat
    const tsaInBufSize: nat

    ghost function Model(): Inbound
      reads this
    {
      Inbound(nwInQ, appInQ, tsaInQ)
    }

    constructor (c: Config, nwIn: nat, appIn: nat, tsaIn: nat, appLimit: nat, tsaLimit: nat)
      ensures Model() == Inbound(Fifo(nwIn, []), Fifo(appIn, []), Fifo(tsaIn, []))
      ensures config == c && appInBufSize == appLimit && tsaInBufSize == tsaLimit
    {
      config, appInBufSize, tsaInBufSize := c, appLimit, tsaLimit;
      nwInQ, appInQ, tsaInQ := Fifo(nwIn, []), Fifo(appIn, []), Fifo(tsaIn, []);
    }

    /** `IsGroupMember`: search the address table. */
    method SearchGroup(domainIndex: nat, group: byte) returns (found: bool)
      ensures found <==> IsGroupMember(config, domainIndex, group)
    {
      var i := 0;
      while i < |config.groups|
        invariant i <= |config.groups|
        invariant forall k :: 0 <= k < i ==> config.groups[k] != GroupEntry(true, group, domainIndex)
      {
        if config.groups[i].isGroup && config.groups[i].group == group && config.groups[i].domainIndex == domainIndex {
          assert config.groups[i] == GroupEntry(true, group, domainIndex);
          return true;
        }
        i := i + 1;
      }
      return false;
    }

    /** Destination and start of the domain field. */
    method ReadDest(b: seq<byte>) returns (dest: Dest, at: nat)
      requires |b| >= MIN_SLOT
      ensures dest == DestOf(b) && at == DomainAt(b)
    {
      match b[0] / 4 % 4
      case 0 => dest, at := Broadcast(b[3]), 4;
      case 1 => dest, at := Multicast(b[3]), 4;
      case 2 =>
        if b[2] / 128 == 1 {
          dest, at := SubnetNode(b[3], b[4]), 5;
        } else {
          dest, at := MulticastAck(b[3], b[4], b[5], b[6]), 7;
        }
      case _ => dest, at := UniqueNodeId(b[3], b[4..10]), 10;
    }

    /** The drop rules of the address modes. */
    method CheckDest(dest: Dest, index: nat) returns (mine: bool)
      requires index < 2 || index == FLEX_DOMAIN
      ensures mine <==> ForMe(config, index, dest)
    {
      var flexDomain := index == FLEX_DOMAIN;
      match dest
      case Broadcast(s) =>
        mine := !(!flexDomain && s != 0 && s != config.domains[index].subnet);
      case Multicast(g) =>
        var member := SearchGroup(index, g);
        mine := flexDomain || member;
      case SubnetNode(s, n) =>
        mine := flexDomain || (s == config.domains[index].subnet && n == config.domains[index].nodeClone);
      case MulticastAck(s, n, g, _) =>
        var member := SearchGroup(index, g);
        mine := (flexDomain || (s == config.domains[index].subnet && n == config.domains[index].nodeClone))
          && (flexDomain || member);
      case UniqueNodeId(_, uid) => mine := uid == config.uniqueId;
      case UnknownMode => mine := false;
    }

    /** The steps of NetworkLayerReceive up to the choice of a target queue. */
    method Filter(b: seq<byte>, size: nat) returns (v: Verdict)
      requires |b| >= MIN_SLOT && size <= |b|
      ensures v == Receive(config, b, size)
    {
      var dest, at := ReadDest(b);
      var domainLength := DecodeDomainLength(b[0] % 4);
      if domainLength != 0 && domainLength != 1 && domainLength != 3 { return Dropped; }
      var domainId := b[at..at + domainLength];
      var index := FLEX_DOMAIN;
      if config.configured && !config.domains[0].invalid && domainLength == config.domains[0].idLen
         && domainId == config.domains[0].id[..domainLength] {
        index := 0;
      } else if config.configured && config.twoDomains && !config.domains[1].invalid
                && domainLength == config.domains[1].idLen && domainId == config.domains[1].id[..domainLength] {
        index := 1;
      }
      var flexDomain := index == FLEX_DOMAIN;
      if !flexDomain && b[1] == config.domains[index].subnet && b[2] == config.domains[index].nodeClone && index != 1 {
        return Dropped;
      }
      var mine := CheckDest(dest, index);
      if !mine { return Dropped; }
      if !config.configured && !dest.Broadcast? && !dest.UniqueNodeId? { return Dropped; }
      if flexDomain && config.configured && !dest.UniqueNodeId? { return Dropped; }
      if size <= at + domainLength { return Dropped; }
      v := Accepted(Indication(b[0] / 64, b[0] / 16 % 4, b[1], b[2], dest, index, domainId, b[at + domainLength..size]));
    }

    /** `NetworkLayerReceive` */
    method ReceivePacket()
      modifies this`nwInQ, this`appInQ, this`tsaInQ
      ensures Model() == AfterReceive(config, appInBufSize, tsaInBufSize, old(Model()))
    {
      if nwInQ.entries == [] { return; }
      var packet := nwInQ.entries[0];
      var v := Filter(packet.bytes, packet.size);
      hide Receive;
      match v {
        case Dropped =>
        case Accepted(ind) =>
          if ind.pduType == APDU_TYPE {
            if !(appInQ.Full() || |ind.pdu| > appInBufSize) { appInQ := appInQ.Write(ind); }
          } else {
            if !(tsaInQ.Full() || |ind.pdu| > tsaInBufSize) { tsaInQ := tsaInQ.Write(ind); }
          }
      }
      nwInQ := nwInQ.DropHead();
    }
  }
}
