/** The IP addresses that a node listens on (RestoreIpMembership in ipv4_to_lon_udp.c), and which messages sent
    over LON/UDP it hears. */
module LonUdpMembership {
  import opened Bytes
  import opened LonAddress
  import opened AddressMapping
  import opened NetworkPdu
  import opened LonUdp

  // ------------------------------------------------------------------
  // Bits of a byte
  // ------------------------------------------------------------------

  /** Bitwise or, from the lowest bit on. */
  function Or(a: nat, b: nat): (c: nat)
    decreases a + b
  {
    if a == 0 then b else if b == 0 then a
    else 2 * Or(a / 2, b / 2) + if a % 2 == 1 || b % 2 == 1 then 1 else 0
  }

  /** Every bit of a is one of b. */
  predicate Within(a: nat, b: nat) {
    Or(a, b) == b
  }

  lemma {:induction false} OrBits(a: nat, b: nat)
    ensures Or(a, b) / 2 == Or(a / 2, b / 2)
    ensures Or(a, b) % 2 == 1 <==> a % 2 == 1 || b % 2 == 1
  {}

  lemma {:induction false} OrIsByte(a: nat, b: nat, n: nat)
    requires a < Power(n) && b < Power(n)
    ensures Or(a, b) < Power(n)
    decreases n
  {
    if n > 0 {
      OrBits(a, b);
      OrIsByte(a / 2, b / 2, n - 1);
    }
  }

  function Power(n: nat): (p: nat)
    ensures p >= 1
  {
    if n == 0 then 1 else 2 * Power(n - 1)
  }

  function OrByte(a: byte, b: byte): byte {
    assert Power(8) == 256;
    OrIsByte(a, b, 8);
    Or(a, b)
  }

  lemma {:induction false} OrCommutes(a: nat, b: nat)
    ensures Or(a, b) == Or(b, a)
    decreases a + b
  {
    if a != 0 && b != 0 { OrCommutes(a / 2, b / 2); }
  }

  /** A number is given by its half and its parity. */
  lemma Halves(x: nat, y: nat)
    requires x / 2 == y / 2 && (x % 2 == 1 <==> y % 2 == 1)
    ensures x == y
  {}

  lemma {:induction false} OrAssociates(a: nat, b: nat, c: nat)
    ensures Or(Or(a, b), c) == Or(a, Or(b, c))
    decreases a + b + c
  {
    if a != 0 && b != 0 && c != 0 {
      OrAssociates(a / 2, b / 2, c / 2);
      OrBits(a, b);
      OrBits(b, c);
      OrBits(Or(a, b), c);
      OrBits(a, Or(b, c));
      Halves(Or(Or(a, b), c), Or(a, Or(b, c)));
    }
  }

  lemma {:induction false} OrSame(a: nat)
    ensures Or(a, a) == a
    decreases a
  {
    if a != 0 { OrSame(a / 2); }
  }

  lemma WithinOr(a: nat, b: nat)
    ensures Within(a, Or(a, b)) && Within(b, Or(a, b))
  {
    OrAssociates(a, a, b);
    OrSame(a);
    OrCommutes(a, b);
    OrAssociates(b, b, a);
    OrSame(b);
  }

  lemma WithinBoth(a: nat, b: nat)
    requires Within(a, b) && Within(b, a)
    ensures a == b
  {
    OrCommutes(a, b);
  }

  lemma WithinTransitive(a: nat, b: nat, c: nat)
    requires Within(a, b) && Within(b, c)
    ensures Within(a, c)
  {
    OrAssociates(a, b, c);
  }

  // ------------------------------------------------------------------
  // The addresses joined
  // ------------------------------------------------------------------

  /** The group bits gathered from the first i entries of the address table; one variable holds the address for
      all groups, and every group is or-ed into it. */
  function Gathered(entries: seq<GroupEntry>, i: nat): byte
    requires i <= |entries|
  {
    if i == 0 then 0
    else if entries[i - 1].isGroup then OrByte(Gathered(entries, i - 1), entries[i - 1].group)
    else Gathered(entries, i - 1)
  }

  /** The address of a group is joined: gathered at one of the first n entries. */
  ghost predicate JoinsGroup(entries: seq<GroupEntry>, n: nat, group: byte)
    requires n <= |entries|
  {
    exists i :: 0 <= i < n && entries[i].isGroup && Gathered(entries, i + 1) == group
  }

  /** A node as seen from the IP side: its own address, its subnet and its address table. */
  datatype RawNode = Node(ip: Ip, subnet: byte, entries: seq<GroupEntry>)
  type Node = n: RawNode | n.ip[0] != 239 || n.ip[1] != 192 witness RawNode.Node([0, 0, 0, 0], 0, [])

  /** An address that the node listens on. */
  ghost predicate Listens(n: Node, ip: Ip) {
    || ip == n.ip
    || ip == [239, 192, 0, 0]
    || (n.subnet != 0 && ip == [239, 192, 0, n.subnet])
    || (ip[..3] == [239, 192, 1] && JoinsGroup(n.entries, |n.entries|, ip[3]))
  }

  /** `RestoreIpMembership`: every address that is joined. */
  method RestoreIpMembership(n: Node) returns (joined: set<Ip>)
    ensures forall ip: Ip :: ip in joined || ip == n.ip <==> Listens(n, ip)
  {
    var group: byte := 0;
    joined := {};
    var i := 0;
    while i < |n.entries|
      invariant i <= |n.entries| && group == Gathered(n.entries, i)
      invariant forall ip: Ip :: ip in joined <==> ip[..3] == [239, 192, 1] && JoinsGroup(n.entries, i, ip[3])
    {
      if n.entries[i].isGroup {
        group := OrByte(group, n.entries[i].group);
        ghost var before := joined;
        joined := joined + {[239, 192, 1, group]};
        forall ip: Ip ensures ip in joined <==> ip[..3] == [239, 192, 1] && JoinsGroup(n.entries, i + 1, ip[3]) {
          OneMoreGroup(n.entries, i, ip);
        }
      }
      i := i + 1;
    }
    joined := joined + {[239, 192, 0, 0]};
    if n.subnet != 0 { joined := joined + {[239, 192, 0, n.subnet]}; }
  }

  lemma OneMoreGroup(entries: seq<GroupEntry>, i: nat, ip: Ip)
    requires i < |entries| && entries[i].isGroup
    ensures ip[..3] == [239, 192, 1] && JoinsGroup(entries, i + 1, ip[3]) <==>
      (ip[..3] == [239, 192, 1] && JoinsGroup(entries, i, ip[3])) || ip == [239, 192, 1, Gathered(entries, i + 1)]
  {
    if ip[..3] == [239, 192, 1] { assert ip == ip[..3] + [ip[3]]; }
  }

  // ------------------------------------------------------------------
  // Which messages are heard
  // ------------------------------------------------------------------

  /** The node is one that a broadcast, a group message or a message to a neuron ID may be for. */
  ghost predicate MayBeFor(m: Vx, n: Node) {
    match m.dest
    case Broadcast(subnet) => subnet == 0 || subnet == n.subnet
    case Multicast(group) => InGroup(n.entries, group)
    case UniqueNodeId(_, _) => true
    case _ => false
  }

  ghost predicate InGroup(entries: seq<GroupEntry>, group: byte) {
    exists i :: 0 <= i < |entries| && entries[i].isGroup && entries[i].group == group
  }

  /** Broadcasts and messages to neuron IDs are heard by the nodes they may be for, and no others; a message to
      a group by those that joined its address. */
  lemma HeardIff(h: Host, c: map<Key, Route>, m: Vx, n: Node)
    requires m.version == LEGACY || m.version == ENHANCED
    requires !m.dest.SubnetNode? && !m.dest.MulticastAck?
    ensures ToUdp(h, c, m).Datagram?
    ensures Listens(n, ToUdp(h, c, m).to) <==>
      if m.dest.Multicast? then JoinsGroup(n.entries, |n.entries|, m.dest.group) else MayBeFor(m, n)
  {
    var to := DestIp(c, m);
    assert ToUdp(h, c, m).to == to by { hide DestIp, Payload; }
    assert to[..2] == [239, 192];
    assert m.dest.Multicast? ==> to[..3] == [239, 192, 1] && to[3] == m.dest.group;
    assert m.dest.Broadcast? ==> to[3] == m.dest.subnet && to[2] == 0;
    assert m.dest.UniqueNodeId? ==> to == [239, 192, 0, 0];
    assert to[2] == 1 || to[2] == 0;
    assert to[..3][2] == to[2];
    if m.dest.Broadcast? && (m.dest.subnet == 0 || m.dest.subnet == n.subnet) { assert to == [239, 192, 0, m.dest.subnet]; }
  }

  lemma {:induction false} GatheredWithin(entries: seq<GroupEntry>, i: nat, j: nat)
    requires i <= j <= |entries|
    ensures Within(Gathered(entries, i), Gathered(entries, j))
    decreases j
  {
    OrSame(Gathered(entries, i));
    if i < j {
      GatheredWithin(entries, i, j - 1);
      if entries[j - 1].isGroup {
        WithinOr(Gathered(entries, j - 1), entries[j - 1].group);
        WithinTransitive(Gathered(entries, i), Gathered(entries, j - 1), Gathered(entries, j));
      }
    }
  }

  lemma EntryWithin(entries: seq<GroupEntry>, i: nat, j: nat)
    requires i < j <= |entries| && entries[i].isGroup
    ensures Within(entries[i].group, Gathered(entries, j))
  {
    WithinOr(Gathered(entries, i), entries[i].group);
    GatheredWithin(entries, i + 1, j);
    WithinTransitive(entries[i].group, Gathered(entries, i + 1), Gathered(entries, j));
  }

  /** The group of an entry has the bits of all groups in front of it, or is what was gathered there before. */
  ghost predicate InOrder(entries: seq<GroupEntry>, i: nat)
    requires i < |entries| && entries[i].isGroup
  {
    (forall k :: 0 <= k < i && entries[k].isGroup ==> Within(entries[k].group, entries[i].group))
    || JoinsGroup(entries, i, entries[i].group)
  }

  lemma {:induction false} GatheredInside(entries: seq<GroupEntry>, i: nat, x: nat)
    requires i <= |entries|
    requires forall k :: 0 <= k < i && entries[k].isGroup ==> Within(entries[k].group, x)
    ensures Within(Gathered(entries, i), x)
    decreases i
  {
    if i > 0 {
      GatheredInside(entries, i - 1, x);
      if entries[i - 1].isGroup { OrAssociates(Gathered(entries, i - 1), entries[i - 1].group, x); }
    }
  }

  /** The groups share one variable, so the address of an entry's group is joined exactly if the group is in
      order: it contains the bits of the groups in front of it, or was gathered before. */
  lemma JoinedIff(entries: seq<GroupEntry>, i: nat)
    requires i < |entries| && entries[i].isGroup
    ensures JoinsGroup(entries, |entries|, entries[i].group) <==> InOrder(entries, i)
  {
    var g := entries[i].group;
    if InOrder(entries, i) && !JoinsGroup(entries, i, g) {
      GatheredInside(entries, i, g);
      assert Gathered(entries, i + 1) == g;
    }
    if JoinsGroup(entries, |entries|, g) && !JoinsGroup(entries, i, g) {
      var j :| 0 <= j < |entries| && entries[j].isGroup && Gathered(entries, j + 1) == g;
      assert j >= i;
      forall k | 0 <= k < i && entries[k].isGroup ensures Within(entries[k].group, g) {
        EntryWithin(entries, k, j + 1);
      }
    }
  }

  /** A node hears the messages to all of its groups exactly if its table lists them in order. */
  lemma AllGroupsHeardIff(n: Node)
    ensures (forall g: byte :: InGroup(n.entries, g) ==> JoinsGroup(n.entries, |n.entries|, g))
      <==> (forall i :: 0 <= i < |n.entries| && n.entries[i].isGroup ==> InOrder(n.entries, i))
  {
    hide JoinsGroup, InOrder;
    forall i | 0 <= i < |n.entries| && n.entries[i].isGroup
      ensures JoinsGroup(n.entries, |n.entries|, n.entries[i].group) <==> InOrder(n.entries, i)
      ensures InGroup(n.entries, n.entries[i].group)
    {
      JoinedIff(n.entries, i);
    }
  }

  /** A member of groups 5 and 8 listens for groups 5 and 13, and never hears group 8. */
  lemma SecondGroupIsDeaf(h: Host, c: map<Key, Route>, m: Vx, n: Node)
    requires m.version == LEGACY || m.version == ENHANCED
    requires m.dest == Multicast(8) && n.entries == [GroupEntry(true, 5, 0), GroupEntry(true, 8, 0)]
    ensures MayBeFor(m, n) && !Listens(n, ToUdp(h, c, m).to)
  {
    var e := n.entries;
    assert e[1].isGroup && e[1].group == 8;
    assert Or(5, 8) == 13 by {
      assert Or(0, 1) == 1 && Or(1, 2) == 3 && Or(2, 4) == 6;
    }
    assert Gathered(e, 1) == 5 && Gathered(e, 2) == 13;
    HeardIff(h, c, m, n);
    hide Gathered, Listens;
  }

  /** A message to a subnet and node, or a group response, reaches a node of that subnet exactly if the sender
      does not know the address, and so sends to the whole subnet, or knows that node's own. */
  lemma AddresseeHearsIff(h: Host, c: map<Key, Route>, m: Vx, n: Node, subnet: byte, node: byte)
    requires m.version == LEGACY || m.version == ENHANCED
    requires m.dest == SubnetNode(subnet, node)
      || (m.dest.MulticastAck? && m.dest.ackSubnet == subnet && m.dest.ackNode == node)
    requires n.subnet == subnet && m.domain[..Min(2, |m.domain|)] != [239, 192]
    requires var key := KeyOf(m.domain, subnet, node); key in c && c[key].At? ==> c[key].ip[..2] != [239, 192]
    ensures ToUdp(h, c, m).Datagram?
    ensures Listens(n, ToUdp(h, c, m).to) <==>
      var key := KeyOf(m.domain, subnet, node);
      key !in c || n.ip == (if c[key].At? then c[key].ip else DerivedAddress(m.domain, subnet, node))
  {
    var to, key := DestIp(c, m), KeyOf(m.domain, subnet, node);
    assert ToUdp(h, c, m).to == to by { hide DestIp, Payload; }
    if key !in c {
      assert to == [239, 192, 0, subnet];
    } else {
      assert to == if c[key].At? then c[key].ip else DerivedAddress(m.domain, subnet, node);
      if c[key].ByDerivation? { assert to[..2] == Prefix(if subnet == 0 || node % 128 == 0 then [] else m.domain); }
      assert to[..2] != [239, 192];
      assert to[..3][..2] == to[..2];
    }
  }
}
