/** Source routing by proxy repeaters (lcs_proxy.c): each repeater strips its successor's address off the
    message and sends the rest there; the proxy agent gets what is left. */
module Proxy {
  import opened Bytes
  import opened SlotQueue
  import opened Timers
  import NetworkPdu

  // ------------------------------------------------------------------
  // Messages
  // ------------------------------------------------------------------

  datatype Flags = Flags(byDest: bool, longTimer: bool, allAgents: bool, bySrc: bool) {
    predicate Uniform() { byDest || bySrc }
  }

  type nibble = x: nat | x < 16

  function HeaderByte(f: Flags, count: nibble): byte {
    128 * Bit(f.byDest) + 64 * Bit(f.longTimer) + 32 * Bit(f.allAgents) + 16 * Bit(f.bySrc) + count
  }

  function FlagsOf(b: byte): Flags {
    Flags(b / 128 == 1, b / 64 % 2 == 1, b / 32 % 2 == 1, b / 16 % 2 == 1)
  }

  /** A repeater or agent address; uniform messages leave the subnet out. */
  datatype RawHop = Hop(subnet: byte, path: bool, node: nat)
  type Hop = h: RawHop | h.node < 128 witness Hop(0, false, 0)

  function HopBytes(f: Flags, h: Hop): seq<byte> {
    if f.byDest || f.bySrc then [128 * Bit(h.path) + h.node] else [h.subnet, 128 * Bit(h.path) + h.node]
  }

  function HopsBytes(f: Flags, hops: seq<Hop>): seq<byte> {
    if hops == [] then [] else HopBytes(f, hops[0]) + HopsBytes(f, hops[1..])
  }

  /** A proxy message: up to 15 addresses, transmit control, and the bytes for the agent. */
  datatype RawMessage = Message(flags: Flags, hops: seq<Hop>, txctrl: byte, agent: seq<byte>)
  type Message = m: RawMessage | |m.hops| < 16 witness Message(Flags(false, false, false, false), [], 0, [])

  function Encode(m: Message): seq<byte> {
    if m.hops == [] then [HeaderByte(m.flags, 0)] + m.agent
    else [HeaderByte(m.flags, |m.hops|)] + HopsBytes(m.flags, m.hops) + [m.txctrl] + m.agent
  }

  // ------------------------------------------------------------------
  // One repeater
  // ------------------------------------------------------------------

  /** Where and how a repeater sends. */
  datatype Target = Target(subnet: byte, node: nat, path: bool, txTimer: nibble, retry: nibble, longTimer: bool, adjust: nat)

  /** A message in the receive buffer of a node: the subnet it came from, the node's own subnet, the domain, and
      the length of the message; behind it the buffer holds whatever was there. */
  datatype RawFrame = Frame(srcSubnet: byte, ownSubnet: byte, domainIndex: nat, buffer: seq<byte>, len: nat)
  type Frame = f: RawFrame | |f.buffer| >= MIN_BUFFER && f.len < |f.buffer|
    witness Frame(0, 0, 0, seq(MIN_BUFFER, _ => 0), 0)

  /** Room for the header, 15 addresses of two bytes and the transmit control, and for all that an agent reads. */
  const MIN_BUFFER := 32

  function HopsLeft(f: Frame): nibble { f.buffer[0] % 16 }
  function Uniform(f: Frame): bool { FlagsOf(f.buffer[0]).Uniform() }
  function TxCtrlAt(f: Frame): nat { 1 + if Uniform(f) then HopsLeft(f) else 2 * HopsLeft(f) }

  /** Where the message for the next node starts: its header replaces the byte before what is left. */
  function NextAt(f: Frame): nat { (if Uniform(f) then 1 else 2) + if HopsLeft(f) == 1 then 1 else 0 }

  /** More time for the last timeout the more repeaters are left. */
  function Adjust(longTimer: bool, timer: nibble, left: nat): nat {
    if longTimer || timer >= 10 then 512 * left else if timer >= 8 then 256 * left else 256
  }

  function TargetOf(f: Frame): Target
    requires HopsLeft(f) > 0
  {
    var flags, b := FlagsOf(f.buffer[0]), f.buffer;
    var a, tx := if flags.Uniform() then b[1] else b[2], b[TxCtrlAt(f)];
    Target(if flags.bySrc then f.srcSubnet else if flags.byDest then f.ownSubnet else b[1],
           a % 128, a >= 128, tx % 16, tx / 16, flags.longTimer, Adjust(flags.longTimer, tx % 16, HopsLeft(f) - 1))
  }

  /** The buffer after the new header was written into it. */
  function Overwritten(f: Frame): Frame
    requires HopsLeft(f) > 0
  {
    f.(buffer := f.buffer[NextAt(f) := f.buffer[0] - 1])
  }

  /** The message that goes on. */
  function Rest(f: Frame): seq<byte>
    requires HopsLeft(f) > 0 && NextAt(f) <= f.len
  {
    Overwritten(f).buffer[NextAt(f)..f.len]
  }

  /** The length checks: a header, two bytes for the agent and one more, and a start that is inside. */
  predicate LongEnough(f: Frame) {
    f.len >= 4 && NextAt(f) <= f.len
  }

  // ------------------------------------------------------------------
  // The agent
  // ------------------------------------------------------------------

  /** The address of the target, in one of eight formats. */
  datatype Address =
    | Group(group: byte, size: nat)
    | SubnetNode(subnet: byte, node: nat)
    | NeuronId(route: byte, nid: seq<byte>)
    | Broadcast(to: byte, backlog: byte)

  /** A message handed to an output queue: by a repeater to the next node, by an agent to the target. The keys are
      the bytes added to the keys of the domains when the message asks for an alternative key. */
  datatype Relay =
    | Relay(next: Target, data: seq<byte>)
    | Request(address: Address, path: bool, txTimer: nibble, retry: nibble, service: nat, keys: seq<byte>,
              code: byte, data: seq<byte>)

  const UNACKNOWLEDGED := 2
  const ALTERNATIVE_KEY := 2
  const OMA_KEY := 1

  function AddressSize(addressType: nat): nat {
    match addressType
    case 2 => 7
    case 4 => 1
    case 5 => 1
    case 6 => 6
    case 7 => 1
    case _ => 2
  }

  /** The bytes of the key behind the three bytes of header, control byte and transmit control. */
  function KeyLength(f: Frame): (n: nat)
    ensures n <= 13
  {
    if f.buffer[1] % 4 != ALTERNATIVE_KEY then 0 else if f.buffer[3] % 4 == OMA_KEY then 13 else 7
  }

  function ServiceOf(f: Frame): nat { f.buffer[1] / 4 % 4 }
  function CodeAt(f: Frame): nat { 3 + KeyLength(f) + AddressSize(f.buffer[1] / 32) }

  function AddressOf(f: Frame): Address {
    var at := 3 + KeyLength(f);
    var a, b := f.buffer[at], f.buffer[at + 1];
    match f.buffer[1] / 32
    case 0 => Group(a, b % 128)
    case 1 => SubnetNode(a, b % 128)
    case 2 => NeuronId(a, f.buffer[at + 1..at + 7])
    case 3 => Broadcast(a, b)
    case 4 => Group(a, 0)
    case 5 => SubnetNode(f.srcSubnet, a % 128)
    case 6 => NeuronId(0, f.buffer[at..at + 6])
    case _ => SubnetNode(f.ownSubnet, a % 128)
  }

  /** Six bytes for the key of each domain from the one the message came in. */
  function KeysEnd(f: Frame): nat {
    if KeyLength(f) == 0 then 4 else if f.domainIndex == 1 then 10 else 16
  }

  function KeysOf(f: Frame): seq<byte> {
    if KeyLength(f) == 0 then [] else f.buffer[4..KeysEnd(f)]
  }

  /** A header, two bytes for the agent and one more, and a code that is inside. */
  predicate HasCode(f: Frame) {
    f.len >= 4 && CodeAt(f) < f.len
  }

  function RequestOf(f: Frame): Relay
    requires HasCode(f)
  {
    Request(AddressOf(f), f.buffer[1] / 16 % 2 == 1, f.buffer[2] % 16, f.buffer[2] / 16, ServiceOf(f), KeysOf(f),
            f.buffer[CodeAt(f)], f.buffer[CodeAt(f) + 1..f.len])
  }

  // ------------------------------------------------------------------
  // A repeater that is an agent as well
  // ------------------------------------------------------------------

  /** When the message is for all agents, a repeater handles what it has for the agent first. */
  predicate Copies(f: Frame) {
    FlagsOf(f.buffer[0]).allAgents && HopsLeft(f) > 0 && TxCtrlAt(f) < f.len && f.domainIndex != NetworkPdu.FLEX_DOMAIN
  }

  /** `processProxyRepeaterAsAgent`: the data that it works on then. */
  function AgentCopy(f: Frame): seq<byte>
    requires TxCtrlAt(f) < f.len
  {
    [0] + f.buffer[TxCtrlAt(f) + 1..f.len + 1]
  }

  /** The copy as a message of its own, on a stack that holds whatever was there. */
  function CopyFrame(f: Frame, stack: seq<byte>): Frame
    requires Copies(f) && |f.buffer| <= |stack|
  {
    var copy := AgentCopy(f);
    f.(buffer := copy + stack[|copy|..], len := |copy|)
  }

  // ------------------------------------------------------------------
  // Journeys
  // ------------------------------------------------------------------

  /** What a node is to do with a message: the message, the queues and the timer as they are then, how it was
      received, and the ticks. */
  datatype RawStop = Stop(frame: Frame, stack: seq<byte>, out: Outbound, wait: Timer, unacked: bool, priority: bool,
                          limits: Limits, t: Clock, u: Clock)
  type Stop = s: RawStop | |s.frame.buffer| <= |s.stack|
    witness RawStop.Stop(Frame(0, 0, 0, seq(MIN_BUFFER, _ => 0), 0), seq(MIN_BUFFER, _ => 0),
                         Outbound(Fifo(0, []), Fifo(0, []), Fifo(0, []), Fifo(0, []), []), Timer(0, 0), false, false,
                         Limits(0, 0), Clock(0, 0, 0), Clock(0, 0, 0))

  ghost function Outcome(s: Stop): Attempt {
    Processed(s.frame, s.stack, s.out, s.wait, s.unacked, s.priority, s.limits, s.t, s.u)
  }

  /** The queue that a message is meant for: there is one for unacknowledged messages of either priority. */
  function Named(o: Outbound, unacked: bool, priority: bool): Fifo<Relay> {
    if unacked then o.nw else if priority then o.tsaPri else o.tsa
  }

  /** One more entry at its end, and nothing else. */
  function Plus(o: Outbound, unacked: bool, priority: bool, r: Relay): Outbound {
    var q := Named(o, unacked, priority);
    var q' := q.(entries := q.entries + [r]);
    if unacked then o.(nw := q') else if priority then o.(tsaPri := q') else o.(tsa := q')
  }

  /** The queue that has to be seen not full first: for an unacknowledged priority message another one. */
  predicate Blocks(o: Outbound, unacked: bool, priority: bool) {
    if unacked && priority then o.nwPri.Full() else Named(o, unacked, priority).Full()
  }

  /** The entry that a queue has got more than before, if it is a message for a node. */
  ghost predicate Grew(before: seq<Relay>, after: seq<Relay>) {
    |after| > |before| && after[|after| - 1].Relay?
  }

  ghost function Newest(before: seq<Relay>, after: seq<Relay>): (r: Relay)
    requires Grew(before, after)
    ensures r.Relay?
  {
    after[|after| - 1]
  }

  ghost function QueueAfter(s: Stop): seq<Relay> {
    Named(Outcome(s).out, s.unacked, s.priority).entries
  }

  /** A message left this node: the queue it is meant for has become longer and ends with a message for a node. */
  ghost predicate Forwards(s: Stop) {
    Grew(Named(s.out, s.unacked, s.priority).entries, QueueAfter(s))
  }

  ghost function Forwarded(s: Stop): (r: Relay)
    requires Forwards(s)
    ensures r.Relay?
  {
    Newest(Named(s.out, s.unacked, s.priority).entries, QueueAfter(s))
  }

  /** `g` is where the message goes that `s` put into its queue: the node is in the subnet addressed and sees the
      bytes of the entry, with anything behind them. */
  ghost predicate Follows(s: Stop, g: Stop) {
    Forwards(s)
    && var r := Forwarded(s);
    && g.frame.len == |r.data| && g.frame.buffer[..g.frame.len] == r.data
    && g.frame.srcSubnet == s.frame.ownSubnet && g.frame.ownSubnet == r.next.subnet
  }

  ghost predicate Journey(fs: seq<Stop>) {
    forall i :: 0 <= i < |fs| - 1 ==> Follows(fs[i], fs[i + 1])
  }

  ghost predicate Holds(f: Frame, m: Message) {
    f.len == |Encode(m)| && f.buffer[..f.len] == Encode(m)
  }

  /** What the route asks for, from the first repeater on: explicit subnets as given; one subnet "of the
      destination" is the repeater's own; one "of the source" is that of the node it heard. */
  function Route(m: Message, srcSubnet: byte, ownSubnet: byte): seq<Target>
    decreases |m.hops|
  {
    if m.hops == [] then []
    else
      var h := m.hops[0];
      var subnet := if m.flags.bySrc then srcSubnet else if m.flags.byDest then ownSubnet else h.subnet;
      [Target(subnet, h.node, h.path, m.txctrl % 16, m.txctrl / 16, m.flags.longTimer,
              Adjust(m.flags.longTimer, m.txctrl % 16, |m.hops| - 1))]
      + Route(m.(hops := m.hops[1..]), ownSubnet, subnet)
  }

  lemma HeaderFields(f: Flags, count: nibble)
    ensures FlagsOf(HeaderByte(f, count)) == f && HeaderByte(f, count) % 16 == count
    ensures count > 0 ==> HeaderByte(f, count) - 1 == HeaderByte(f, count - 1)
  {
    var b := HeaderByte(f, count);
    assert b / 16 == 8 * Bit(f.byDest) + 4 * Bit(f.longTimer) + 2 * Bit(f.allAgents) + Bit(f.bySrc);
    assert b / 32 == 4 * Bit(f.byDest) + 2 * Bit(f.longTimer) + Bit(f.allAgents);
    assert b / 64 == 2 * Bit(f.byDest) + Bit(f.longTimer);
  }

  lemma {:induction false} HopsLength(f: Flags, hops: seq<Hop>)
    ensures |HopsBytes(f, hops)| == if f.Uniform() then |hops| else 2 * |hops|
  {
    if hops != [] { HopsLength(f, hops[1..]); }
  }

  /** The parts of an encoded message: header, first address, the other addresses, transmit control, agent. */
  lemma Parts(m: Message)
    requires m.hops != []
    ensures var e, h := Encode(m), HopBytes(m.flags, m.hops[0]);
      && |e| == 2 + |HopsBytes(m.flags, m.hops)| + |m.agent|
      && e[0] == HeaderByte(m.flags, |m.hops|) && e[1..1 + |h|] == h
      && e[1 + |HopsBytes(m.flags, m.hops)|] == m.txctrl
      && e[1 + |h|..] == HopsBytes(m.flags, m.hops[1..]) + [m.txctrl] + m.agent
  {
    hide HopBytes, HeaderByte;
    var h, hs := HopBytes(m.flags, m.hops[0]), HopsBytes(m.flags, m.hops[1..]);
    assert Encode(m) == [HeaderByte(m.flags, |m.hops|)] + h + (hs + [m.txctrl] + m.agent);
  }

  lemma Prefix(b: seq<byte>, len: nat, k: nat)
    requires k < len <= |b|
    ensures b[..len][k] == b[k]
  {}

  lemma StepHeader(m: Message, f: Frame)
    requires Holds(f, m) && m.hops != []
    ensures FlagsOf(f.buffer[0]) == m.flags && HopsLeft(f) == |m.hops| && f.buffer[0] == HeaderByte(m.flags, |m.hops|)
    ensures TxCtrlAt(f) == 1 + |HopsBytes(m.flags, m.hops)| && TxCtrlAt(f) < f.len && f.buffer[TxCtrlAt(f)] == m.txctrl
  {
    Parts(m);
    HeaderFields(m.flags, |m.hops|);
    HopsLength(m.flags, m.hops);
    hide HopsBytes, Encode, HeaderByte, FlagsOf;
    Prefix(f.buffer, f.len, 0);
    Prefix(f.buffer, f.len, 1 + |HopsBytes(m.flags, m.hops)|);
  }

  lemma StepHop(m: Message, f: Frame)
    requires Holds(f, m) && m.hops != []
    ensures var h := m.hops[0];
      if m.flags.Uniform() then f.buffer[1] == 128 * Bit(h.path) + h.node
      else f.buffer[1] == h.subnet && f.buffer[2] == 128 * Bit(h.path) + h.node
  {
    Parts(m);
    HopsLength(m.flags, m.hops);
    var h := HopBytes(m.flags, m.hops[0]);
    Prefix(f.buffer, f.len, 1);
    assert h[0] == Encode(m)[1..1 + |h|][0];
    if |h| == 2 {
      Prefix(f.buffer, f.len, 2);
      assert h[1] == Encode(m)[1..1 + |h|][1];
    }
    hide HopsBytes, Encode, HeaderByte, FlagsOf;
  }

  lemma StepTarget(m: Message, f: Frame)
    requires Holds(f, m) && m.hops != []
    ensures FlagsOf(f.buffer[0]) == m.flags && HopsLeft(f) == |m.hops| && f.buffer[0] == HeaderByte(m.flags, |m.hops|)
    ensures TxCtrlAt(f) == 1 + |HopsBytes(m.flags, m.hops)|
    ensures TargetOf(f) == Route(m, f.srcSubnet, f.ownSubnet)[0]
  {
    StepHeader(m, f);
    StepHop(m, f);
    hide HopsBytes, Encode, HeaderByte, FlagsOf, Adjust, Holds, TxCtrlAt;
  }

  lemma RestBytes(f: Frame)
    requires HopsLeft(f) > 0 && NextAt(f) < f.len
    ensures Rest(f) == [f.buffer[0] - 1] + f.buffer[..f.len][NextAt(f) + 1..]
  {}

  lemma EncodeRest(m: Message)
    requires m.hops != []
    ensures var at := |HopBytes(m.flags, m.hops[0])| + if |m.hops| == 1 then 1 else 0;
      at < |Encode(m)|
      && Encode(m.(hops := m.hops[1..])) == [HeaderByte(m.flags, |m.hops| - 1)] + Encode(m)[at + 1..]
  {
    Parts(m);
    HopsLength(m.flags, m.hops);
    var e, h, hs := Encode(m), HopBytes(m.flags, m.hops[0]), HopsBytes(m.flags, m.hops[1..]);
    assert |m.hops| == 1 ==> hs == [];
    EncodeFewer(m);
    hide HopBytes, HeaderByte, Encode, HopsBytes;
    if |m.hops| == 1 { Skip(e, 1 + |h|, m.txctrl, m.agent); }
  }

  lemma Skip(e: seq<byte>, at: nat, x: byte, rest: seq<byte>)
    requires at <= |e| && e[at..] == [] + [x] + rest
    ensures at < |e| && e[at + 1..] == rest
  {
    assert e[at..][1..] == rest;
  }

  lemma EncodeFewer(m: Message)
    requires m.hops != []
    ensures Encode(m.(hops := m.hops[1..])) == [HeaderByte(m.flags, |m.hops| - 1)]
      + if |m.hops| == 1 then m.agent else HopsBytes(m.flags, m.hops[1..]) + [m.txctrl] + m.agent
  {
    hide HeaderByte, HopsBytes;
  }

  lemma StepLength(m: Message, f: Frame)
    requires Holds(f, m) && m.hops != []
    ensures HopsLeft(f) > 0 && NextAt(f) == |HopBytes(m.flags, m.hops[0])| + if |m.hops| == 1 then 1 else 0
    ensures LongEnough(f) <==> !(m.flags.Uniform() && |m.hops| == 1 && m.agent == [])
  {
    Parts(m);
    StepTarget(m, f);
    HopsLength(m.flags, m.hops);
    hide HopsBytes, HeaderByte, TargetOf, FlagsOf, Encode;
  }

  lemma StepRest(m: Message, f: Frame)
    requires Holds(f, m) && m.hops != []
    requires HopsLeft(f) > 0 && LongEnough(f)
    ensures Rest(f) == Encode(m.(hops := m.hops[1..]))
  {
    StepTarget(m, f);
    StepLength(m, f);
    HeaderFields(m.flags, |m.hops|);
    EncodeRest(m);
    hide HopBytes, HeaderByte, TargetOf, Rest, FlagsOf, Encode, NextAt, TxCtrlAt, Route;
    RestBytes(f);
  }

  /** One repeater does what the first address says and passes on the message without that address; only
      the last repeater of a uniform message with nothing for the agent finds it too short and drops it. */
  lemma RepeaterStep(m: Message, f: Frame)
    requires Holds(f, m) && m.hops != []
    ensures HopsLeft(f) == |m.hops| && TargetOf(f) == Route(m, f.srcSubnet, f.ownSubnet)[0]
    ensures LongEnough(f) <==> !(m.flags.Uniform() && |m.hops| == 1 && m.agent == [])
    ensures LongEnough(f) ==> Rest(f) == Encode(m.(hops := m.hops[1..]))
  {
    StepTarget(m, f);
    StepLength(m, f);
    if LongEnough(f) { StepRest(m, f); }
  }

  /** What an attempt at a repeater comes to, the message being at its first address: it is kept while its queue
      is full and the wait is not over, and sent on as the message without that address exactly if its queue
      has a slot that QueueWrite accepts and it fits; it is refused with the number of its addresses when the
      wait is over or it does not fit; in no other case does anything become of it. */
  lemma RepeaterOutcome(m: Message, f: Frame, o: Outbound, w: Timer, unacked: bool, priority: bool, limits: Limits, t: Clock)
    requires Holds(f, m) && m.hops != []
    ensures var a, rest := Handled(f, o, w, unacked, priority, limits, t), Encode(m.(hops := m.hops[1..]));
      var blocked, tooBig := Blocks(o, unacked, priority), |rest| + 1 > (if unacked then limits.nw else limits.tsa);
      var empty := m.flags.Uniform() && |m.hops| == 1 && m.agent == [];
      var sent := Plus(o, unacked, priority, Relay(Route(m, f.srcSubnet, f.ownSubnet)[0], rest));
      && (a.out == sent <==> !blocked && !empty && !tooBig && Named(o, unacked, priority).HasRoom())
      && (a.out == o.(failures := o.failures + [|m.hops|]) <==>
            if blocked then w.Fires(t.now) else !empty && (tooBig || Named(o, unacked, priority).Full()))
      && (a.out == o || a.out == sent || a.out == o.(failures := o.failures + [|m.hops|]))
      && (a.done <==> blocked ==> w.Fires(t.now))
  {
    RepeaterStep(m, f);
    RouteLength(m, f.srcSubnet, f.ownSubnet);
    hide Encode, Route, TargetOf, Rest, LongEnough, Holds, Waiting, RequestOf, HasCode;
    NotTheSame(o, unacked, priority, Relay(Route(m, f.srcSubnet, f.ownSubnet)[0], Encode(m.(hops := m.hops[1..]))), |m.hops|);
  }

  lemma NotTheSame(o: Outbound, unacked: bool, priority: bool, r: Relay, count: byte)
    ensures Plus(o, unacked, priority, r) != o && o.(failures := o.failures + [count]) != o
    ensures Plus(o, unacked, priority, r) != o.(failures := o.failures + [count])
  {
    var q := Named(o, unacked, priority);
    assert |q.entries + [r]| > |q.entries| && |o.failures + [count]| > |o.failures|;
    assert Named(Plus(o, unacked, priority, r), unacked, priority) != q;
  }

  /** ProcessLTEP on a message with addresses left that is not copied: what it puts on a queue is the message
      without its first address, for the node with that address, in the queue of its kind, and nothing else;
      the exact conditions are those of RepeaterOutcome. */
  lemma RepeaterQueues(m: Message, s: Stop)
    requires Holds(s.frame, m) && m.hops != [] && !(m.flags.allAgents && s.frame.domainIndex != NetworkPdu.FLEX_DOMAIN)
    ensures var o, q, rest := s.out, Named(s.out, s.unacked, s.priority), Encode(m.(hops := m.hops[1..]));
      var blocked, tooBig := Blocks(o, s.unacked, s.priority), |rest| + 1 > (if s.unacked then s.limits.nw else s.limits.tsa);
      var empty := m.flags.Uniform() && |m.hops| == 1 && m.agent == [];
      var sent := Plus(o, s.unacked, s.priority, Relay(Route(m, s.frame.srcSubnet, s.frame.ownSubnet)[0], rest));
      && (Outcome(s).out == sent <==> !blocked && !empty && !tooBig && q.HasRoom())
      && (Outcome(s).out == o.(failures := o.failures + [|m.hops|]) <==>
            if blocked then s.wait.Fires(s.u.now) else !empty && (tooBig || q.Full()))
      && (Outcome(s).out == o || Outcome(s).out == sent || Outcome(s).out == o.(failures := o.failures + [|m.hops|]))
      && (Outcome(s).done <==> blocked ==> s.wait.Fires(s.u.now))
  {
    CopiesIff(m, s.frame);
    RepeaterOutcome(m, s.frame, s.out, s.wait, s.unacked, s.priority, s.limits, s.u);
    hide Handled, Encode, Route, Plus, Named, Blocks, Holds;
  }

  /** The same at the agent, whose message says what is to be requested. */
  lemma AgentOutcome(r: Relay, format: nat, f: Frame, o: Outbound, w: Timer, unacked: bool, priority: bool, limits: Limits, t: Clock)
    requires HopsLeft(f) == 0 && Askable(r, format, f) && f.len >= 1
    requires f.buffer[1..f.len] == EncodeRequest(r, format, f)
    ensures var a, u := Handled(f, o, w, unacked, priority, limits, t), r.service == 2;
      var blocked, tooBig := Blocks(o, u, priority), |r.data| + 1 > (if u then limits.nw else limits.tsa);
      && (a.out == Plus(o, u, priority, r) <==> !blocked && !tooBig && Named(o, u, priority).HasRoom())
      && (a.out == o.(failures := o.failures + [0]) <==>
            if blocked then w.Fires(t.now) else tooBig || Named(o, u, priority).Full())
      && (a.out == o || a.out == Plus(o, u, priority, r) || a.out == o.(failures := o.failures + [0]))
      && (a.done <==> blocked ==> w.Fires(t.now))
  {
    AgentRequests(r, format, f);
    hide EncodeRequest, HasCode, TargetOf, Rest, LongEnough, Waiting, AddressOf, KeysOf, Askable;
    NotTheSame(o, r.service == 2, priority, r, 0);
  }

  /** ProcessLTEP on a message with no addresses left: the request goes to the queue of the service that it names. */
  lemma AgentQueues(r: Relay, format: nat, s: Stop)
    requires HopsLeft(s.frame) == 0 && Askable(r, format, s.frame) && s.frame.len >= 1
    requires s.frame.buffer[1..s.frame.len] == EncodeRequest(r, format, s.frame)
    ensures var o, u := s.out, r.service == 2;
      var blocked, tooBig := Blocks(o, u, s.priority), |r.data| + 1 > (if u then s.limits.nw else s.limits.tsa);
      && (Outcome(s).out == Plus(o, u, s.priority, r) <==> !blocked && !tooBig && Named(o, u, s.priority).HasRoom())
      && (Outcome(s).out == o.(failures := o.failures + [0]) <==>
            if blocked then s.wait.Fires(s.u.now) else tooBig || Named(o, u, s.priority).Full())
      && (Outcome(s).done <==> blocked ==> s.wait.Fires(s.u.now))
  {
    AgentOutcome(r, format, s.frame, s.out, s.wait, s.unacked, s.priority, s.limits, s.u);
    hide Handled, Plus, Named, Blocks, EncodeRequest, Askable;
  }

  /** An agent's attempt puts nothing but a request on a queue. */
  lemma AgentAddsRequests(g: Frame, o: Outbound, w: Timer, u: bool, priority: bool, limits: Limits, t: Clock,
                          unacked: bool)
    requires HopsLeft(g) == 0
    ensures var before, after := Named(o, unacked, priority).entries,
                                 Named(Handled(g, o, w, u, priority, limits, t).out, unacked, priority).entries;
      after == before || (|after| == |before| + 1 && after[..|before|] == before && after[|before|].Request?)
  {
    hide HasCode, AddressOf, KeysOf, Waiting, CodeAt, ServiceOf;
  }

  /** What the copy leaves for the message. */
  ghost function Copied(s: Stop): Attempt {
    if Copies(s.frame) then Handled(CopyFrame(s.frame, s.stack), s.out, s.wait, true, s.priority, s.limits, s.t)
    else Attempt(true, s.out, s.wait)
  }

  lemma OutcomeIs(s: Stop)
    ensures Outcome(s) == Handled(s.frame, Copied(s).out, Copied(s).wait, s.unacked, s.priority, s.limits, s.u)
  {
    hide Handled, CopyFrame, Copies;
  }

  lemma CopyAddsRequests(s: Stop)
    ensures var before, after := Named(s.out, s.unacked, s.priority).entries, Named(Copied(s).out, s.unacked, s.priority).entries;
      after == before || (|after| == |before| + 1 && after[..|before|] == before && after[|before|].Request?)
  {
    if Copies(s.frame) {
      var g := CopyFrame(s.frame, s.stack);
      assert HopsLeft(g) == 0;
      hide Handled, CopyFrame, Copies, HopsLeft;
      AgentAddsRequests(g, s.out, s.wait, true, s.priority, s.limits, s.t, s.unacked);
    }
  }

  /** A repeater handles what there is for the agent first exactly if the message is for all agents and came in a
      domain of its own. */
  lemma CopiesIff(m: Message, f: Frame)
    requires Holds(f, m)
    ensures Copies(f) <==> m.flags.allAgents && m.hops != [] && f.domainIndex != NetworkPdu.FLEX_DOMAIN
  {
    if m.hops != [] {
      StepHeader(m, f);
    } else {
      Prefix(f.buffer, f.len, 0);
      HeaderFields(m.flags, 0);
    }
    hide FlagsOf, HeaderByte, HopsBytes, TxCtrlAt;
  }

  /** A request with one more byte of data. */
  function Longer(r: Relay, b: byte): Relay
    requires r.Request?
  {
    Request(r.address, r.path, r.txTimer, r.retry, r.service, r.keys, r.code, r.data + [b])
  }

  /** A message that a node puts on a queue as it is. */
  predicate Accepts(o: Outbound, unacked: bool, priority: bool, limits: Limits, r: Relay) {
    !Blocks(o, unacked, priority) && |r.data| + 1 <= (if unacked then limits.nw else limits.tsa) && Named(o, unacked, priority).HasRoom()
  }

  /** A repeater that is an agent as well puts two messages on its queues, first the request, in the queue of the
      service that it names and with the byte behind the message as one more byte of data, then the message
      without its first address, exactly if there is room for the one and then for the other. */
  lemma BothQueued(m: Message, s: Stop, r: Relay, format: nat)
    requires Holds(s.frame, m) && m.flags.allAgents && m.hops != [] && s.frame.domainIndex != NetworkPdu.FLEX_DOMAIN
    requires Askable(r, format, s.frame) && m.agent == EncodeRequest(r, format, s.frame)
    ensures s.frame.len < |s.frame.buffer| && |Route(m, s.frame.srcSubnet, s.frame.ownSubnet)| > 0
    ensures var longer := Longer(r, s.frame.buffer[s.frame.len]);
      var next := Relay(Route(m, s.frame.srcSubnet, s.frame.ownSubnet)[0], Encode(m.(hops := m.hops[1..])));
      var o := Plus(s.out, r.service == 2, s.priority, longer);
      Outcome(s).out == Plus(o, s.unacked, s.priority, next) <==>
        Accepts(s.out, r.service == 2, s.priority, s.limits, longer) && Accepts(o, s.unacked, s.priority, s.limits, next)
  {
    var longer := Longer(r, s.frame.buffer[s.frame.len]);
    var next := Relay(Route(m, s.frame.srcSubnet, s.frame.ownSubnet)[0], Encode(m.(hops := m.hops[1..])));
    CopiesIff(m, s.frame);
    CopyOutcome(m, s, r, format);
    OutcomeIs(s);
    var c := Copied(s);
    RepeaterOutcome(m, s.frame, c.out, c.wait, s.unacked, s.priority, s.limits, s.u);
    assert m.agent != [];
    hide Handled, Encode, Route, Holds, Outcome, Copied, Blocks, EncodeRequest, Askable;
    TwoMore(s.out, c.out, r.service == 2, s.unacked, s.priority, longer, next, 0, |m.hops|);
  }

  lemma CopyOutcome(m: Message, s: Stop, r: Relay, format: nat)
    requires Holds(s.frame, m) && Copies(s.frame) && m.hops != []
    requires Askable(r, format, s.frame) && m.agent == EncodeRequest(r, format, s.frame)
    ensures var longer, u := Longer(r, s.frame.buffer[s.frame.len]), r.service == 2;
      && (Copied(s).out == Plus(s.out, u, s.priority, longer) <==> Accepts(s.out, u, s.priority, s.limits, longer))
      && (Copied(s).out == s.out || Copied(s).out == Plus(s.out, u, s.priority, longer)
          || Copied(s).out == s.out.(failures := s.out.failures + [0]))
  {
    var g, longer := CopyFrame(s.frame, s.stack), Longer(r, s.frame.buffer[s.frame.len]);
    CopyEncodes(m, s.frame, s.stack, r, format);
    hide Handled, Encode, Holds, CopyFrame, Copies, EncodeRequest, Askable, Longer, HopsLeft;
    AgentOutcome(longer, format, g, s.out, s.wait, true, s.priority, s.limits, s.t);
  }

  lemma CopyEncodes(m: Message, f: Frame, stack: seq<byte>, r: Relay, format: nat)
    requires Holds(f, m) && Copies(f) && m.hops != [] && |f.buffer| <= |stack|
    requires Askable(r, format, f) && m.agent == EncodeRequest(r, format, f)
    ensures var g, longer := CopyFrame(f, stack), Longer(r, f.buffer[f.len]);
      && HopsLeft(g) == 0 && g.len >= 1 && longer.service == r.service
      && Askable(longer, format, g) && g.buffer[1..g.len] == EncodeRequest(longer, format, g)
  {
    var g, b := CopyFrame(f, stack), f.buffer[f.len];
    var longer := Longer(r, b);
    AgentCopyIsLonger(m, f);
    assert HopsLeft(g) == 0;
    assert g.buffer[..g.len] == [0] + m.agent + [b];
    assert g.buffer[1..g.len] == g.buffer[..g.len][1..] == m.agent + [b];
    hide Copies, CopyFrame, Holds, Encode;
    assert Askable(longer, format, g);
    LongerEncoding(r, format, f, g, b);
  }

  lemma LongerEncoding(r: Relay, format: nat, f: Frame, g: Frame, b: byte)
    requires Askable(r, format, f) && Askable(Longer(r, b), format, g)
    ensures EncodeRequest(Longer(r, b), format, g) == EncodeRequest(r, format, f) + [b]
  {
    hide KeyBytes;
    assert ControlByte(Longer(r, b), format) == ControlByte(r, format);
    assert AddressBytes(r.address, format, g) == AddressBytes(r.address, format, f);
    hide ControlByte, AddressBytes;
  }

  lemma TwoMore(o: Outbound, c: Outbound, u: bool, unacked: bool, priority: bool, x: Relay, y: Relay, i: byte, j: byte)
    requires c == o || c == Plus(o, u, priority, x) || c == o.(failures := o.failures + [i])
    ensures var o2 := Plus(Plus(o, u, priority, x), unacked, priority, y);
      && o2 != c && o2 != c.(failures := c.failures + [j])
      && (o2 == Plus(c, unacked, priority, y) <==> c == Plus(o, u, priority, x))
  {}

  /** Whatever is copied, a message that leaves a node is the message without its first address, for that. */
  lemma ForwardedIs(m: Message, s: Stop)
    requires Holds(s.frame, m) && m.hops != [] && Forwards(s)
    ensures |Route(m, s.frame.srcSubnet, s.frame.ownSubnet)| > 0
    ensures Forwarded(s) == Relay(Route(m, s.frame.srcSubnet, s.frame.ownSubnet)[0], Encode(m.(hops := m.hops[1..])))
  {
    RouteLength(m, s.frame.srcSubnet, s.frame.ownSubnet);
    hide Handled, Encode, Route, Holds, Outcome, Copied, Blocks;
    OutcomeIs(s);
    CopyAddsRequests(s);
    RepeaterOutcome(m, s.frame, Copied(s).out, Copied(s).wait, s.unacked, s.priority, s.limits, s.u);
    MessageIsNewest(s.out, Copied(s).out, Outcome(s).out, s.unacked, s.priority,
                    Relay(Route(m, s.frame.srcSubnet, s.frame.ownSubnet)[0], Encode(m.(hops := m.hops[1..]))), |m.hops|);
  }

  lemma MessageIsNewest(o: Outbound, c: Outbound, a: Outbound, unacked: bool, priority: bool, r: Relay, count: byte)
    requires var before, copied := Named(o, unacked, priority).entries, Named(c, unacked, priority).entries;
      copied == before || (|copied| == |before| + 1 && copied[..|before|] == before && copied[|before|].Request?)
    requires a == c || a == Plus(c, unacked, priority, r) || a == c.(failures := c.failures + [count])
    requires r.Relay? && Grew(Named(o, unacked, priority).entries, Named(a, unacked, priority).entries)
    ensures Newest(Named(o, unacked, priority).entries, Named(a, unacked, priority).entries) == r
  {}

  /** The repeaters of a journey put messages for the targets of a route on their queues, one after the other. */
  ghost predicate Visits(fs: seq<Stop>, route: seq<Target>) {
    |route| < |fs| && forall i :: 0 <= i < |route| ==> SendsTo(fs[i], route[i])
  }

  ghost predicate SendsTo(s: Stop, t: Target) {
    Forwards(s) && Forwarded(s).next == t
  }

  lemma VisitsCons(fs: seq<Stop>, route: seq<Target>)
    requires fs != [] && route != [] && SendsTo(fs[0], route[0]) && Visits(fs[1..], route[1..])
    ensures Visits(fs, route)
  {
    hide SendsTo;
    forall i | 0 < i < |route| ensures SendsTo(fs[i], route[i]) {
      assert fs[1..][i - 1] == fs[i] && route[1..][i - 1] == route[i];
    }
  }

  /** A message with n addresses, forwarded by n repeaters, visits them in order, each with the transmit
      control of the message, and reaches the agent as a header with count 0 in front of the agent's bytes,
      unchanged. What a repeater forwards is what ProcessLTEP put on its queue. */
  lemma {:induction false} JourneyFollowsRoute(m: Message, fs: seq<Stop>)
    requires |fs| == |m.hops| + 1 && Holds(fs[0].frame, m) && Journey(fs)
    ensures Holds(fs[|m.hops|].frame, m.(hops := []))
    ensures |Route(m, fs[0].frame.srcSubnet, fs[0].frame.ownSubnet)| == |m.hops|
    ensures Visits(fs, Route(m, fs[0].frame.srcSubnet, fs[0].frame.ownSubnet))
    decreases |m.hops|
  {
    RouteLength(m, fs[0].frame.srcSubnet, fs[0].frame.ownSubnet);
    if m.hops == [] {
      assert m.(hops := []) == m;
    } else {
      var m' := m.(hops := m.hops[1..]);
      JourneyTail(fs);
      hide Outcome, Forwards, Forwarded;
      ForwardedIs(m, fs[0]);
      RouteTail(m, fs[0].frame.srcSubnet, fs[0].frame.ownSubnet);
      assert Holds(fs[1].frame, m');
      hide Encode, Journey, Route, Visits, Holds;
      JourneyFollowsRoute(m', fs[1..]);
      assert fs[1..][|m'.hops|] == fs[|m.hops|];
      VisitsCons(fs, Route(m, fs[0].frame.srcSubnet, fs[0].frame.ownSubnet));
    }
  }

  lemma JourneyTail(fs: seq<Stop>)
    requires Journey(fs) && |fs| >= 2
    ensures Journey(fs[1..]) && Follows(fs[0], fs[1])
  {
    hide Follows;
    forall i | 0 <= i < |fs| - 2 ensures Follows(fs[1..][i], fs[1..][i + 1]) { assert Follows(fs[i + 1], fs[i + 2]); }
    assert Follows(fs[0], fs[0 + 1]);
  }

  lemma RouteTail(m: Message, srcSubnet: byte, ownSubnet: byte)
    requires m.hops != []
    ensures var r := Route(m, srcSubnet, ownSubnet);
      r != [] && r[1..] == Route(m.(hops := m.hops[1..]), ownSubnet, r[0].subnet)
  {}

  /** In a message whose subnet is that of the source, repeaters in two subnets take turns; so all of at least
      two targets are in one subnet exactly if the first repeater is in the subnet of the sender. */
  lemma {:induction false} SourceSubnetsAlternate(m: Message, src: byte, own: byte, i: nat)
    requires m.flags.bySrc && i < |m.hops|
    ensures |Route(m, src, own)| == |m.hops| && Route(m, src, own)[i].subnet == if i % 2 == 0 then src else own
    decreases i
  {
    var r := Route(m, src, own);
    RouteTail(m, src, own);
    RouteLength(m, src, own);
    if i > 0 {
      SourceSubnetsAlternate(m.(hops := m.hops[1..]), own, src, i - 1);
      assert r[i] == r[1..][i - 1];
    }
  }

  /** Every hop allows for those behind it: per repeater left, 512 ms with long timers, 256 ms with middle
      ones, so that each waits longer than the next; with short timers all wait the same. */
  lemma {:induction false} TimeoutsShrink(m: Message, src: byte, own: byte, i: nat)
    requires i < |m.hops|
    ensures |Route(m, src, own)| == |m.hops|
    ensures var left, timer := |m.hops| - 1 - i, m.txctrl % 16;
      Route(m, src, own)[i].adjust ==
        if m.flags.longTimer || timer >= 10 then 512 * left else if timer >= 8 then 256 * left else 256
    decreases i
  {
    var r := Route(m, src, own);
    RouteTail(m, src, own);
    RouteLength(m, src, own);
    if i > 0 {
      TimeoutsShrink(m.(hops := m.hops[1..]), own, r[0].subnet, i - 1);
      assert r[i] == r[1..][i - 1];
    }
  }

  lemma {:induction false} RouteLength(m: Message, src: byte, own: byte)
    ensures |Route(m, src, own)| == |m.hops|
    decreases |m.hops|
  {
    if m.hops != [] { RouteLength(m.(hops := m.hops[1..]), own, Route(m, src, own)[0].subnet); }
  }

  /** What the source of a message can ask an agent for: an address in one of the eight formats (4 to 7 leave out
      what is 0 or what the agent knows: the size of a group, the subnet that the message came from, the subnet
      of a neuron ID, the agent's own subnet), and a key for every domain from the one the agent is addressed in,
      or none. */
  ghost predicate Askable(r: Relay, format: nat, f: Frame) {
    && r.Request? && r.service < 4 && |r.keys| in {0, if f.domainIndex == 1 then 6 else 12}
    && Expressible(r.address, format, f)
  }

  ghost predicate Expressible(a: Address, format: nat, f: Frame) {
    match a
    case Group(_, size) => size < 128 && (format == 0 || (format == 4 && size == 0))
    case SubnetNode(subnet, node) =>
      node < 128 && (format == 1 || (format == 5 && subnet == f.srcSubnet) || (format == 7 && subnet == f.ownSubnet))
    case NeuronId(route, nid) => |nid| == 6 && (format == 2 || (format == 6 && route == 0))
    case Broadcast(_, _) => format == 3
  }

  ghost function AddressBytes(a: Address, format: nat, f: Frame): seq<byte>
    requires Expressible(a, format, f)
  {
    match a
    case Group(g, size) => if format == 0 then [g, size] else [g]
    case SubnetNode(s, node) => if format == 1 then [s, node] else [node]
    case NeuronId(s, nid) => if format == 2 then [s] + nid else nid
    case Broadcast(s, backlog) => [s, backlog]
  }

  ghost function KeyBytes(keys: seq<byte>): seq<byte> {
    if keys == [] then [] else [if |keys| == 12 then OMA_KEY else 0] + keys
  }

  ghost function ControlByte(r: Relay, format: nat): byte
    requires r.Request? && r.service < 4 && format < 8
  {
    32 * format + 16 * Bit(r.path) + 4 * r.service + if r.keys == [] then 0 else ALTERNATIVE_KEY
  }

  /** The bytes for the agent that ask for r. */
  ghost function EncodeRequest(r: Relay, format: nat, f: Frame): seq<byte>
    requires Askable(r, format, f)
  {
    [ControlByte(r, format), 16 * r.retry + r.txTimer] + KeyBytes(r.keys) + AddressBytes(r.address, format, f) + [r.code] + r.data
  }

  lemma ControlFields(r: Relay, format: nat)
    requires r.Request? && r.service < 4 && format < 8
    ensures var b := ControlByte(r, format);
      && b / 32 == format && b / 16 % 2 == Bit(r.path) && b / 4 % 4 == r.service
      && b % 4 == if r.keys == [] then 0 else ALTERNATIVE_KEY
  {
    var b := ControlByte(r, format);
    assert b / 4 == 8 * format + 4 * Bit(r.path) + r.service;
    assert b / 16 == 2 * format + Bit(r.path);
  }

  /** An agent whose buffer holds the encoding of r behind the header requests r, in every address format. */
  lemma AgentRequests(r: Relay, format: nat, f: Frame)
    requires Askable(r, format, f) && f.len >= 1
    requires f.buffer[1..f.len] == EncodeRequest(r, format, f)
    ensures HasCode(f) && RequestOf(f) == r
  {
    var e, k, a := EncodeRequest(r, format, f), KeyBytes(r.keys), AddressBytes(r.address, format, f);
    ControlFields(r, format);
    assert |a| == AddressSize(format);
    RequestBytes(f, e, k, a, r);
    assert KeyLength(f) == |k|;
    assert KeysOf(f) == r.keys;
    hide ControlByte, EncodeRequest, KeyBytes, KeyLength;
    RequestAddress(f, r.address, format);
    hide AddressBytes, AddressOf, KeysOf, Expressible;
  }

  /** Where the parts of the encoding are. */
  lemma RequestBytes(f: Frame, e: seq<byte>, k: seq<byte>, a: seq<byte>, r: Relay)
    requires r.Request? && 1 <= f.len && f.buffer[1..f.len] == e
    requires |e| >= 2 && e == [e[0], e[1]] + k + a + [r.code] + r.data
    ensures f.buffer[1] == e[0] && f.buffer[2] == e[1]
    ensures var at := 3 + |k|;
      && at + |a| < f.len && f.buffer[3..at] == k && f.buffer[at..at + |a|] == a
      && f.buffer[at + |a|] == r.code && f.buffer[at + |a| + 1..f.len] == r.data
  {
    var at := 3 + |k|;
    assert forall j :: 1 <= j < f.len ==> f.buffer[j] == e[j - 1];
    assert e[2..2 + |k|] == k && e[2 + |k|..2 + |k| + |a|] == a && e[2 + |k| + |a| + 1..] == r.data;
    assert f.buffer[3..at] == e[2..2 + |k|];
    assert f.buffer[at..at + |a|] == e[2 + |k|..2 + |k| + |a|];
    assert f.buffer[at + |a| + 1..f.len] == e[2 + |k| + |a| + 1..];
  }

  lemma RequestAddress(f: Frame, address: Address, format: nat)
    requires Expressible(address, format, f) && f.buffer[1] / 32 == format
    requires var at := 3 + KeyLength(f);
      f.buffer[at..at + |AddressBytes(address, format, f)|] == AddressBytes(address, format, f)
    ensures AddressOf(f) == address
  {
    hide KeyLength;
    var at, a := 3 + KeyLength(f), AddressBytes(address, format, f);
    assert f.buffer[at] == f.buffer[at..at + |a|][0];
    if |a| > 1 { assert f.buffer[at + 1] == f.buffer[at..at + |a|][1]; }
    if format == 2 { assert f.buffer[at + 1..at + 7] == f.buffer[at..at + 7][1..]; }
  }

  /** From end to end: a request that the source puts behind any route of at most 15 addresses is what the agent
      behind the last of them puts on the output queue of its service, exactly if that accepts it. */
  lemma JourneyRequests(m: Message, fs: seq<Stop>, r: Relay, format: nat)
    requires |fs| == |m.hops| + 1 && Holds(fs[0].frame, m) && Journey(fs)
    requires Askable(r, format, fs[|m.hops|].frame) && m.agent == EncodeRequest(r, format, fs[|m.hops|].frame)
    ensures var s, u := fs[|m.hops|], r.service == 2;
      Outcome(s).out == Plus(s.out, u, s.priority, r) <==>
        !Blocks(s.out, u, s.priority) && |r.data| + 1 <= (if u then s.limits.nw else s.limits.tsa) && Named(s.out, u, s.priority).HasRoom()
  {
    JourneyFollowsRoute(m, fs);
    var s := fs[|m.hops|];
    Prefix(s.frame.buffer, s.frame.len, 0);
    HeaderFields(m.flags, 0);
    hide HeaderByte, EncodeRequest, Askable, Outcome, Plus, Blocks, Named;
    assert s.frame.buffer[1..s.frame.len] == s.frame.buffer[..s.frame.len][1..] == m.agent;
    AgentQueues(r, format, s);
  }

  // ------------------------------------------------------------------
  // Two flaws of the buffer handling
  // ------------------------------------------------------------------

  /** The new header is written before the output queue is looked at. If that queue is full the message is
      handled again later, from the changed buffer: it then goes where it should exactly if the change
      happened to change nothing. */
  lemma RetryIff(f: Frame)
    requires HopsLeft(f) > 0 && LongEnough(f)
    ensures HopsLeft(Overwritten(f)) == HopsLeft(f) && Rest(Overwritten(f)) == Rest(f)
    ensures TargetOf(Overwritten(f)) == TargetOf(f) <==> f.buffer[NextAt(f)] == f.buffer[0] - 1
  {
    var g := Overwritten(f);
    RereadHeader(f);
    SplitByte(f.buffer[NextAt(f)], f.buffer[0] - 1);
    hide FlagsOf, Adjust;
  }

  lemma RereadHeader(f: Frame)
    requires HopsLeft(f) > 0
    ensures var g := Overwritten(f);
      g.buffer[0] == f.buffer[0] && NextAt(g) == NextAt(f) && TxCtrlAt(g) == TxCtrlAt(f) && HopsLeft(g) == HopsLeft(f)
      && Overwritten(g) == g
  {
    hide FlagsOf;
  }

  lemma SplitByte(x: byte, y: byte)
    ensures x / 128 == y / 128 && x % 128 == y % 128 <==> x == y
    ensures x / 16 == y / 16 && x % 16 == y % 16 <==> x == y
    ensures (x >= 128) == (y >= 128) <==> x / 128 == y / 128
  {}

  /** It is what the agent at the end will get, with a count-0 header, and one byte more: the byte that
      happens to lie behind the message. */
  lemma AgentCopyIsLonger(m: Message, f: Frame)
    requires Holds(f, m) && m.hops != []
    ensures TxCtrlAt(f) < f.len && HopsLeft(f) > 0
    ensures AgentCopy(f) == [0] + m.agent + [f.buffer[f.len]]
  {
    StepHeader(m, f);
    AgentBytes(m);
    hide Encode, HopsBytes, FlagsOf, HeaderByte, TxCtrlAt;
    OneMore(f.buffer, f.len, TxCtrlAt(f) + 1);
  }

  lemma OneMore(b: seq<byte>, len: nat, at: nat)
    requires at <= len < |b|
    ensures b[at..len + 1] == b[..len][at..] + [b[len]]
  {}

  lemma AgentBytes(m: Message)
    requires m.hops != []
    ensures Encode(m)[2 + |HopsBytes(m.flags, m.hops)|..] == m.agent
  {}

  /** The bytes of two buffers are the same from 1 to n. */
  ghost predicate Alike(f: Frame, g: Frame, n: nat) {
    n <= |f.buffer| && n <= |g.buffer| && forall k :: 1 <= k < n ==> f.buffer[k] == g.buffer[k]
  }

  lemma AlikeSlice(f: Frame, g: Frame, n: nat, i: nat, j: nat)
    requires Alike(f, g, n) && 1 <= i <= j <= n
    ensures f.buffer[i..j] == g.buffer[i..j]
  {}

  lemma AgentAddress(f: Frame, g: Frame, n: nat)
    requires Alike(f, g, n) && CodeAt(g) < n && KeyLength(f) == KeyLength(g)
    requires f.srcSubnet == g.srcSubnet && f.ownSubnet == g.ownSubnet
    ensures AddressOf(f) == AddressOf(g)
  {
    hide KeyLength;
    var at := 3 + KeyLength(g);
    if g.buffer[1] / 32 == 2 { AlikeSlice(f, g, n, at + 1, at + 7); }
    if g.buffer[1] / 32 == 6 { AlikeSlice(f, g, n, at, at + 6); }
  }

  lemma AgentFields(f: Frame, g: Frame, n: nat)
    requires Alike(f, g, n) && CodeAt(g) < n && KeysEnd(g) <= n
    requires (f.srcSubnet, f.ownSubnet, f.domainIndex) == (g.srcSubnet, g.ownSubnet, g.domainIndex)
    ensures KeyLength(f) == KeyLength(g) && CodeAt(f) == CodeAt(g) && f.buffer[CodeAt(f)] == g.buffer[CodeAt(g)]
    ensures f.buffer[1] == g.buffer[1] && f.buffer[2] == g.buffer[2]
    ensures AddressOf(f) == AddressOf(g) && KeysOf(f) == KeysOf(g)
  {
    assert f.buffer[1] == g.buffer[1] && f.buffer[3] == g.buffer[3];
    assert KeyLength(f) == KeyLength(g);
    hide KeyLength, AddressOf;
    AgentAddress(f, g, n);
    AlikeSlice(f, g, n, 4, KeysEnd(g));
  }

  lemma AgentData(f: Frame, g: Frame, at: nat)
    requires 1 <= at <= g.len && f.len == g.len + 1 && Alike(f, g, g.len)
    ensures f.buffer[at..f.len] == g.buffer[at..g.len] + [f.buffer[g.len]]
  {
    AlikeSlice(f, g, g.len, at, g.len);
  }

  lemma CopyAlike(m: Message, f: Frame, g: Frame, stack: seq<byte>)
    requires Holds(f, m) && Copies(f) && |f.buffer| <= |stack| && Holds(g, m.(hops := []))
    ensures var c := CopyFrame(f, stack);
      HopsLeft(c) == 0 && c.len == g.len + 1 && c.buffer[g.len] == f.buffer[f.len] && Alike(c, g, g.len)
  {
    var c := CopyFrame(f, stack);
    SomeHops(m, f);
    AgentCopyIsLonger(m, f);
    hide Copies, TxCtrlAt, AgentCopy, HeaderByte, HopsBytes;
    InFront(g.buffer, g.len, HeaderByte(m.flags, 0), m.agent);
    InFront(c.buffer, c.len, 0, m.agent + [f.buffer[f.len]]);
  }

  lemma InFront(b: seq<byte>, len: nat, x: byte, rest: seq<byte>)
    requires len <= |b| && b[..len] == [x] + rest
    ensures len == 1 + |rest| && b[0] == x && forall k :: 1 <= k < len ==> b[k] == rest[k - 1]
  {
    assert forall k :: 0 <= k < len ==> b[k] == b[..len][k];
  }

  /** So a repeater requests of the target what the agent at the end of the route does, but with that byte as
      one more byte of data. `g` is the message as it would be at an agent in the repeater's place. */
  lemma CopyRequests(m: Message, f: Frame, g: Frame, stack: seq<byte>)
    requires Holds(f, m) && Copies(f) && |f.buffer| <= |stack|
    requires Holds(g, m.(hops := [])) && HasCode(g) && KeysEnd(g) <= g.len
    requires (f.srcSubnet, f.ownSubnet, f.domainIndex) == (g.srcSubnet, g.ownSubnet, g.domainIndex)
    ensures var c := CopyFrame(f, stack);
      HasCode(c) && RequestOf(c) == RequestOf(g).(data := RequestOf(g).data + [f.buffer[f.len]])
  {
    var c := CopyFrame(f, stack);
    CopyAlike(m, f, g, stack);
    assert c.domainIndex == g.domainIndex;
    hide Copies, CopyFrame, Holds, Alike, KeyLength, CodeAt, AddressOf, KeysOf, KeysEnd;
    AgentFields(c, g, g.len);
    AgentData(c, g, CodeAt(g) + 1);
  }

  lemma SomeHops(m: Message, f: Frame)
    requires Holds(f, m) && HopsLeft(f) > 0
    ensures m.hops != []
  {
    Prefix(f.buffer, f.len, 0);
    HeaderFields(m.flags, 0);
  }

  // ------------------------------------------------------------------
  // The code
  // ------------------------------------------------------------------

  /** The sizes of the buffers of the network and of the transaction queues. */
  datatype Limits = Limits(nw: nat, tsa: nat) {
    function For(unacked: bool): nat { if unacked then nw else tsa }
  }

  /** The four output queues, and the counts sent back in failure responses. */
  datatype Outbound = Outbound(nwPri: Fifo<Relay>, nw: Fifo<Relay>, tsaPri: Fifo<Relay>, tsa: Fifo<Relay>, failures: seq<byte>)
  {
    /** The queue whose space is checked. */
    function Checked(unacked: bool, priority: bool): Fifo<Relay> {
      if unacked then if priority then nwPri else nw else if priority then tsaPri else tsa
    }

    /** Unacknowledged messages always go out at normal priority. */
    function Hand(r: Relay, unacked: bool, priority: bool, limit: nat, count: byte): Outbound {
      if |r.data| + 1 > limit || (unacked && nw.Full()) then this.(failures := failures + [count])
      else if unacked then this.(nw := nw.Write(r))
      else if priority then this.(tsaPri := tsaPri.Write(r))
      else this.(tsa := tsa.Write(r))
    }
  }

  /** The ticks that an attempt reads: to see whether the wait is over, whether there is one, and to begin one. */
  datatype Clock = Clock(now: u32, again: u32, later: u32)

  /** How an attempt ends: the message is done with, or stays in the input queue to be handled again. */
  datatype Attempt = Attempt(done: bool, out: Outbound, wait: Timer)

  function Waiting(w: Timer, t: Clock): Timer {
    if w.Runs(t.again) then w else w.Set(t.later, 1000)
  }

  function Unacked(f: Frame, unacked: bool): bool {
    if HopsLeft(f) > 0 then unacked else ServiceOf(f) == UNACKNOWLEDGED
  }

  function Fits(f: Frame): bool {
    if HopsLeft(f) > 0 then LongEnough(f) else HasCode(f)
  }

  function Forward(f: Frame): Relay
    requires Fits(f)
  {
    if HopsLeft(f) > 0 then Relay(TargetOf(f), Rest(f)) else RequestOf(f)
  }

  /** ProcessLTEP without the copy. */
  function Handled(f: Frame, o: Outbound, w: Timer, unacked: bool, priority: bool, limits: Limits, t: Clock): (a: Attempt)
    ensures w.repeatTimeout == 0 ==> a.wait.repeatTimeout == 0
  {
    var u := Unacked(f, unacked);
    if !o.Checked(u, priority).Full() then
      Attempt(true, if Fits(f) then o.Hand(Forward(f), u, priority, limits.For(u), HopsLeft(f)) else o, w.Set(t.now, 0))
    else if w.Fires(t.now) then
      Attempt(true, o.(failures := o.failures + [HopsLeft(f)]), w.Polled(t.now, t.again))
    else Attempt(false, o, Waiting(w, t))
  }

  /** ProcessLTEP: first the copy, if there is one, at the ticks t; whatever becomes of it, then the message, at
      the ticks u. */
  function Processed(f: Frame, stack: seq<byte>, o: Outbound, w: Timer, unacked: bool, priority: bool, limits: Limits,
                     t: Clock, u: Clock): (a: Attempt)
    requires |f.buffer| <= |stack|
    ensures w.repeatTimeout == 0 ==> a.wait.repeatTimeout == 0
  {
    if Copies(f) then
      var copied := Handled(CopyFrame(f, stack), o, w, true, priority, limits, t);
      Handled(f, copied.out, copied.wait, unacked, priority, limits, u)
    else Handled(f, o, w, unacked, priority, limits, u)
  }

  /** A message for which there is no room is given up when the wait has expired; but one with a copy only if the
      copy has no room either and the wait expires between the two: otherwise the copy stops the wait, or takes
      its end for its own, and the message begins a new one. */
  lemma GivesUpIff(f: Frame, stack: seq<byte>, o: Outbound, w: Timer, unacked: bool, priority: bool, limits: Limits,
                   t: Clock, u: Clock)
    requires HopsLeft(f) > 0 && |f.buffer| <= |stack| && w.repeatTimeout == 0
    requires o.Checked(unacked, priority).Full()
    ensures Processed(f, stack, o, w, unacked, priority, limits, t, u).done <==>
      if Copies(f) then
        o.Checked(ServiceOf(CopyFrame(f, stack)) == UNACKNOWLEDGED, priority).Full()
        && !w.Fires(t.now) && Waiting(w, t).Fires(u.now)
      else w.Fires(u.now)
  {
    if Copies(f) {
      var g := CopyFrame(f, stack);
      assert HopsLeft(g) == 0;
      HandingLeavesFull(g, o, w, true, unacked, priority, limits, t);
    }
    hide TargetOf, Rest, RequestOf, Fits, CopyFrame, LongEnough, HasCode, Copies;
  }

  /** Handing over a message makes no room. */
  lemma HandingLeavesFull(g: Frame, o: Outbound, w: Timer, u: bool, unacked: bool, priority: bool, limits: Limits, t: Clock)
    requires o.Checked(unacked, priority).Full()
    ensures Handled(g, o, w, u, priority, limits, t).out.Checked(unacked, priority).Full()
  {
    hide Forward, Fits, CopyFrame;
  }

  /** One attempt at a message: the queues as they are then, and the ticks. */
  datatype Try = Try(out: Outbound, stack: seq<byte>, tick: u32)

  /** Attempts one after the other, each on the buffer and the timer that the one before leaves. */
  function Attempts(f: Frame, w: Timer, unacked: bool, priority: bool, limits: Limits, tries: seq<Try>): (r: seq<Attempt>)
    requires HopsLeft(f) > 0 && forall i :: 0 <= i < |tries| ==> |f.buffer| <= |tries[i].stack|
    ensures |r| == |tries|
    decreases |tries|
  {
    if tries == [] then []
    else
      var t := Clock(tries[0].tick, tries[0].tick, tries[0].tick);
      var a := Processed(f, tries[0].stack, tries[0].out, w, unacked, priority, limits, t, t);
      [a] + Attempts(Overwritten(f), a.wait, unacked, priority, limits, tries[1..])
  }

  /** Attempts at a message that is not copied, its queue being full each time, after the wait began: the first
      one at the deadline or later gives it up. */
  lemma {:induction false} WaitsForDeadline(f: Frame, w: Timer, deadline: nat, unacked: bool, priority: bool, limits: Limits,
                                            tries: seq<Try>, times: seq<nat>, i: nat)
    requires HopsLeft(f) > 0 && !Copies(f) && Awaits(w, deadline) && w.repeatTimeout == 0
    requires |times| == |tries| && i < |tries|
    requires forall k :: 0 <= k < |tries| ==>
      tries[k].tick == Tick(times[k]) && deadline - HALF < times[k] <= deadline + HALF
      && |f.buffer| <= |tries[k].stack| && tries[k].out.Checked(unacked, priority).Full()
    requires forall k :: 0 <= k < i ==> times[k] < deadline
    ensures Attempts(f, w, unacked, priority, limits, tries)[i].done <==> times[i] >= deadline
    decreases |tries|
  {
    var t := Clock(tries[0].tick, tries[0].tick, tries[0].tick);
    var a := Processed(f, tries[0].stack, tries[0].out, w, unacked, priority, limits, t, t);
    FiresFromDeadline(w, deadline, times[0]);
    GivesUpIff(f, tries[0].stack, tries[0].out, w, unacked, priority, limits, t, t);
    var r := Attempts(f, w, unacked, priority, limits, tries);
    if i > 0 {
      assert a.wait == w;
      RereadHeader(f);
      hide Processed, Copies, HopsLeft, Overwritten, Awaits;
      assert r[i] == r[1..][i - 1];
      WaitsForDeadline(Overwritten(f), w, deadline, unacked, priority, limits, tries[1..], times[1..], i - 1);
    }
  }

  /** From the first attempt on, a message that is not copied and never finds room is tried for a second, and
      given up at the first attempt after that. */
  lemma GivenUpAfterASecond(f: Frame, w: Timer, unacked: bool, priority: bool, limits: Limits,
                            tries: seq<Try>, times: seq<nat>, i: nat)
    requires HopsLeft(f) > 0 && !Copies(f) && w == Timer(0, 0)
    requires |times| == |tries| && i < |tries|
    requires forall k :: 0 <= k < |tries| ==>
      tries[k].tick == Tick(times[k]) && times[0] <= times[k] <= times[0] + HALF
      && |f.buffer| <= |tries[k].stack| && tries[k].out.Checked(unacked, priority).Full()
    requires forall k :: 0 <= k < i ==> times[k] < Deadline(times[0], 1000)
    ensures Attempts(f, w, unacked, priority, limits, tries)[i].done <==> times[i] >= Deadline(times[0], 1000)
  {
    var t := Clock(tries[0].tick, tries[0].tick, tries[0].tick);
    var a := Processed(f, tries[0].stack, tries[0].out, w, unacked, priority, limits, t, t);
    GivesUpIff(f, tries[0].stack, tries[0].out, w, unacked, priority, limits, t, t);
    SetAwaits(w, times[0], 1000);
    var r := Attempts(f, w, unacked, priority, limits, tries);
    if i > 0 {
      assert a.wait == w.Set(Tick(times[0]), 1000);
      RereadHeader(f);
      hide Processed, Copies, HopsLeft, Overwritten, Awaits;
      assert r[i] == r[1..][i - 1];
      WaitsForDeadline(Overwritten(f), a.wait, Deadline(times[0], 1000), unacked, priority, limits, tries[1..], times[1..], i - 1);
    }
  }

  /** What an attempt does for the agent, the copy having room. */
  predicate CopyQueued(f: Frame, unacked: bool, priority: bool, limits: Limits, try: Try, a: Attempt)
    requires Copies(f) && |f.buffer| <= |try.stack|
  {
    var g := CopyFrame(f, try.stack);
    var u := ServiceOf(g) == UNACKNOWLEDGED;
    try.out.Checked(u, priority).Full()
    || a.out == if HasCode(g) then try.out.Hand(RequestOf(g), u, priority, limits.For(u), 0) else try.out
  }

  /** A message for all agents that finds no room at its own queue waits for as long as that lasts, over any
      number of attempts at any ticks, if the clock does not go on within an attempt: the limit of a second
      never ends the wait. With every attempt that has room for the copy, the copy is handed over once more. */
  lemma {:induction false} CopiesUntilThereIsRoom(f: Frame, w: Timer, unacked: bool, priority: bool, limits: Limits, tries: seq<Try>)
    requires Copies(f) && w.repeatTimeout == 0
    requires forall i :: 0 <= i < |tries| ==> |f.buffer| <= |tries[i].stack|
    requires forall i :: 0 <= i < |tries| ==> tries[i].out.Checked(unacked, priority).Full()
    ensures var r := Attempts(f, w, unacked, priority, limits, tries);
      forall i :: 0 <= i < |tries| ==> !r[i].done && CopyQueued(f, unacked, priority, limits, tries[i], r[i])
    decreases |tries|
  {
    if tries != [] {
      var t := Clock(tries[0].tick, tries[0].tick, tries[0].tick);
      var a := Processed(f, tries[0].stack, tries[0].out, w, unacked, priority, limits, t, t);
      OneAttempt(f, w, unacked, priority, limits, tries[0]);
      CopiedAgain(f, tries[0].stack);
      CopiesUntilThereIsRoom(Overwritten(f), a.wait, unacked, priority, limits, tries[1..]);
      var r := Attempts(f, w, unacked, priority, limits, tries);
      forall i | 0 < i < |tries| ensures !r[i].done && CopyQueued(f, unacked, priority, limits, tries[i], r[i]) {
        CopiedAgain(f, tries[i].stack);
        assert r[i] == r[1..][i - 1] && tries[i] == tries[1..][i - 1];
      }
    }
  }

  lemma OneAttempt(f: Frame, w: Timer, unacked: bool, priority: bool, limits: Limits, try: Try)
    requires Copies(f) && w.repeatTimeout == 0 && |f.buffer| <= |try.stack|
    requires try.out.Checked(unacked, priority).Full()
    ensures var t := Clock(try.tick, try.tick, try.tick);
      var a := Processed(f, try.stack, try.out, w, unacked, priority, limits, t, t);
      !a.done && CopyQueued(f, unacked, priority, limits, try, a)
  {
    var t := Clock(try.tick, try.tick, try.tick);
    var g := CopyFrame(f, try.stack);
    assert HopsLeft(g) == 0;
    GivesUpIff(f, try.stack, try.out, w, unacked, priority, limits, t, t);
    StandingClock(w, try.tick);
    HandedToAgent(g, try.out, w, priority, limits, t);
    HandingLeavesFull(g, try.out, w, true, unacked, priority, limits, t);
    hide HopsLeft, Copies, CopyFrame, Waiting, Handled, RequestOf, HasCode;
    var copied := Handled(g, try.out, w, true, priority, limits, t);
    Blocked(f, copied.out, copied.wait, unacked, priority, limits, t);
  }

  lemma StandingClock(w: Timer, tick: u32)
    ensures !w.Fires(tick) ==> !Waiting(w, Clock(tick, tick, tick)).Fires(tick)
  {}

  lemma HandedToAgent(g: Frame, o: Outbound, w: Timer, priority: bool, limits: Limits, t: Clock)
    requires HopsLeft(g) == 0
    ensures var u := ServiceOf(g) == UNACKNOWLEDGED;
      o.Checked(u, priority).Full()
      || Handled(g, o, w, true, priority, limits, t).out
         == if HasCode(g) then o.Hand(RequestOf(g), u, priority, limits.For(u), 0) else o
  {
    hide RequestOf, HasCode;
  }

  lemma Blocked(f: Frame, o: Outbound, w: Timer, unacked: bool, priority: bool, limits: Limits, t: Clock)
    requires HopsLeft(f) > 0 && o.Checked(unacked, priority).Full()
    ensures var a := Handled(f, o, w, unacked, priority, limits, t);
      !a.done ==> a.out == o
  {
    hide Forward, Fits;
  }

  /** The header written early does not touch the copy. */
  lemma CopiedAgain(f: Frame, stack: seq<byte>)
    requires Copies(f) && |f.buffer| <= |stack|
    ensures Copies(Overwritten(f)) && |Overwritten(f).buffer| == |f.buffer|
    ensures CopyFrame(Overwritten(f), stack) == CopyFrame(f, stack)
  {
    RereadHeader(f);
    hide FlagsOf;
    assert AgentCopy(Overwritten(f)) == AgentCopy(f);
  }

  class ProxyRepeater {
    var nwOutPriQ: Fifo<Relay>
    var nwOutQ: Fifo<Relay>
    var tsaOutPriQ: Fifo<Relay>
    var tsaOutQ: Fifo<Relay>
    var failures: seq<byte>
    const nwOutBufSize: nat
    const tsaOutBufSize: nat
    const proxyBufferWait: LonTimer

    ghost function Model(): Outbound
      reads this
    {
      Outbound(nwOutPriQ, nwOutQ, tsaOutPriQ, tsaOutQ, failures)
    }

    constructor (nwPri: nat, nw: nat, tsaPri: nat, tsa: nat, nwLimit: nat, tsaLimit: nat)
      ensures Model() == Outbound(Fifo(nwPri, []), Fifo(nw, []), Fifo(tsaPri, []), Fifo(tsa, []), [])
      ensures nwOutBufSize == nwLimit && tsaOutBufSize == tsaLimit
      ensures fresh(proxyBufferWait) && proxyBufferWait.Value() == Timer(0, 0)
    {
      nwOutPriQ, nwOutQ, tsaOutPriQ, tsaOutQ := Fifo(nwPri, []), Fifo(nw, []), Fifo(tsaPri, []), Fifo(tsa, []);
      failures, nwOutBufSize, tsaOutBufSize := [], nwLimit, tsaLimit;
      proxyBufferWait := new LonTimer();
    }

    ghost function BufferSizes(): Limits {
      Limits(nwOutBufSize, tsaOutBufSize)
    }

    /** Reads the header, the first address and the transmit control, and writes the header of the next
        message in front of what is left. */
    method Strip(pData: array<byte>, dataLen: nat, srcSubnet: byte, ownSubnet: byte, domainIndex: nat)
      returns (to: Target, offset: nat)
      requires MIN_BUFFER <= pData.Length && dataLen < pData.Length && pData[0] % 16 > 0
      modifies pData
      ensures var f := Frame(srcSubnet, ownSubnet, domainIndex, old(pData[..]), dataLen);
        to == TargetOf(f) && offset == NextAt(f) && pData[..] == Overwritten(f).buffer
    {
      ghost var f := Frame(srcSubnet, ownSubnet, domainIndex, pData[..], dataLen);
      assert pData[0] != 0;
      var ph := FlagsOf(pData[0]);
      var uniform := ph.byDest || ph.bySrc;
      var subnet := if ph.bySrc then srcSubnet else ownSubnet;
      var count: nat := pData[0] % 16;
      var txcpos := 1 + if uniform then count else 2 * count;
      var txc := pData[txcpos];
      var pa := if uniform then 0 else 1;
      var alt, node := pData[pa + 1] >= 128, pData[pa + 1] % 128;
      if !uniform { subnet := pData[pa]; }
      count := count - 1;
      offset := if uniform then 2 else 3;
      if count == 0 { offset := offset + 1; }
      var adjust: nat := 256;
      if ph.longTimer || txc % 16 >= 10 {
        adjust := 512 * count;
      } else if txc % 16 >= 8 {
        adjust := 256 * count;
      }
      to := Target(subnet, node, alt, txc % 16, txc / 16, ph.longTimer, adjust);
      offset := offset - 1;
      pData[offset] := pData[0] - 1;
    }

    /** Reads the control byte, the transmit control, the key and the address of the target. `offset` is behind
        the code. */
    method ReadAgent(pData: array<byte>, dataLen: nat, srcSubnet: byte, ownSubnet: byte, domainIndex: nat)
      returns (request: Relay, offset: nat)
      requires MIN_BUFFER <= pData.Length && dataLen < pData.Length
      ensures var f := Frame(srcSubnet, ownSubnet, domainIndex, pData[..], dataLen);
        && offset == CodeAt(f) + 1 && request.Request? && request.service == ServiceOf(f)
        && (HasCode(f) ==> request.(data := pData[offset..dataLen]) == RequestOf(f))
    {
      var addressType := pData[1] / 32;
      var service := pData[1] / 4 % 4;
      offset := 3 + AddressSize(addressType);
      var at := 3;
      var keys := [];
      if pData[1] % 4 == ALTERNATIVE_KEY {
        var len := if pData[3] % 4 == OMA_KEY then 12 else 6;
        keys := pData[4..if domainIndex == 1 then 10 else 16];
        offset := offset + 1 + len;
        at := at + 1 + len;
      }
      var address: Address;
      match addressType {
        case 2 => address := NeuronId(pData[at], pData[at + 1..at + 7]);
        case 6 => address := NeuronId(0, pData[at..at + 6]);
        case 5 => address := SubnetNode(srcSubnet, pData[at] % 128);
        case 7 => address := SubnetNode(ownSubnet, pData[at] % 128);
        case 0 => address := Group(pData[at], pData[at + 1] % 128);
        case 4 => address := Group(pData[at], 0);
        case 3 => address := Broadcast(pData[at], pData[at + 1]);
        case _ => address := SubnetNode(pData[at], pData[at + 1] % 128);
      }
      request := Request(address, pData[1] / 16 % 2 == 1, pData[2] % 16, pData[2] / 16, service, keys, pData[offset], []);
      offset := offset + 1;
    }

    /** `processProxyRepeaterAsAgent`; `stack` is what its buffer holds before. */
    method ProcessAsAgent(pData: array<byte>, dataLen: nat, srcSubnet: byte, ownSubnet: byte, domainIndex: nat,
                          priority: bool, stack: seq<byte>, txcpos: nat, t: Clock)
      requires MIN_BUFFER <= pData.Length && dataLen < pData.Length && pData[0] % 16 > 0 && pData.Length <= |stack|
      requires FlagsOf(pData[0]).allAgents
      requires txcpos == TxCtrlAt(Frame(srcSubnet, ownSubnet, domainIndex, pData[..], dataLen))
      modifies this, proxyBufferWait
      ensures var f := Frame(srcSubnet, ownSubnet, domainIndex, pData[..], dataLen);
        if Copies(f) then
          var a := Handled(CopyFrame(f, stack), old(Model()), old(proxyBufferWait.Value()), true, priority, BufferSizes(), t);
          Model() == a.out && proxyBufferWait.Value() == a.wait
        else Model() == old(Model()) && proxyBufferWait.Value() == old(proxyBufferWait.Value())
      decreases pData[0] % 16, 0
    {
      var len := txcpos + 1;
      if len < dataLen + 1 && domainIndex != NetworkPdu.FLEX_DOMAIN {
        var size := dataLen + 1 - len + 2;
        var apdu := CopyForAgent(pData, dataLen, len, size, stack);
        ghost var f := Frame(srcSubnet, ownSubnet, domainIndex, pData[..], dataLen);
        ghost var g := CopyFrame(f, stack);
        assert Frame(srcSubnet, ownSubnet, domainIndex, apdu[..], size - 1) == g && HopsLeft(g) == 0;
        hide Handled, CopyFrame;
        var _ := ProcessLTEP(apdu, size - 1, srcSubnet, ownSubnet, domainIndex, true, priority, stack, t, t);
      }
    }

    /** The buffer that the agent's part of the message is copied to. */
    method CopyForAgent(pData: array<byte>, dataLen: nat, len: nat, size: nat, stack: seq<byte>) returns (apdu: array<byte>)
      requires dataLen < pData.Length <= |stack| && 2 <= len <= dataLen && size == dataLen + 1 - len + 2
      ensures fresh(apdu) && apdu[..] == [0] + pData[len..dataLen + 1] + stack[size - 1..]
    {
      apdu := new byte[|stack|](i requires 0 <= i < |stack| => stack[i]);
      assert apdu[..] == stack;
      apdu[0] := 0;
      assert apdu[..1] == [0] && apdu[size - 1..] == stack[size - 1..];
      CopyIn(apdu, 1, pData[len..len + size - 2]);
    }

    /** The first part of ProcessLTEP: the agent's part of a message for all agents. */
    method HandleCopy(pData: array<byte>, dataLen: nat, srcSubnet: byte, ownSubnet: byte, domainIndex: nat,
                      priority: bool, stack: seq<byte>, t: Clock)
      requires MIN_BUFFER <= pData.Length && dataLen < pData.Length && pData.Length <= |stack|
      modifies this, proxyBufferWait
      ensures var f := Frame(srcSubnet, ownSubnet, domainIndex, pData[..], dataLen);
        if Copies(f) then
          var a := Handled(CopyFrame(f, stack), old(Model()), old(proxyBufferWait.Value()), true, priority, BufferSizes(), t);
          Model() == a.out && proxyBufferWait.Value() == a.wait
        else Model() == old(Model()) && proxyBufferWait.Value() == old(proxyBufferWait.Value())
      decreases pData[0] % 16, 1
    {
      hide Handled, CopyFrame;
      var count: nat := pData[0] % 16;
      var ph := FlagsOf(pData[0]);
      var txcpos := 1 + if ph.byDest || ph.bySrc then count else 2 * count;
      if ph.allAgents && count > 0 {
        ProcessAsAgent(pData, dataLen, srcSubnet, ownSubnet, domainIndex, priority, stack, txcpos, t);
      }
    }

    /** `ProcessLTEP`. The buffer of a message with addresses left is changed whatever the outcome. */
    method ProcessLTEP(pData: array<byte>, dataLen: nat, srcSubnet: byte, ownSubnet: byte, domainIndex: nat,
                       unacked: bool, priority: bool, stack: seq<byte>, t: Clock, u: Clock)
      returns (done: bool)
      requires MIN_BUFFER <= pData.Length && dataLen < pData.Length && pData.Length <= |stack|
      modifies this, pData, proxyBufferWait
      ensures var f := Frame(srcSubnet, ownSubnet, domainIndex, old(pData[..]), dataLen);
        && pData[..] == (if HopsLeft(f) > 0 then Overwritten(f).buffer else f.buffer)
        && var wait := old(proxyBufferWait.Value());
        var a := Processed(f, stack, old(Model()), wait, unacked, priority, BufferSizes(), t, u);
        done == a.done && Model() == a.out && proxyBufferWait.Value() == a.wait
      decreases pData[0] % 16, 2
    {
      hide Handled, CopyFrame, Overwritten, HopsLeft, Copies, Model;
      HandleCopy(pData, dataLen, srcSubnet, ownSubnet, domainIndex, priority, stack, t);
      done := HandleMessage(pData, dataLen, srcSubnet, ownSubnet, domainIndex, unacked, priority, u);
    }

    /** The rest of ProcessLTEP, for the message itself. */
    method HandleMessage(pData: array<byte>, dataLen: nat, srcSubnet: byte, ownSubnet: byte, domainIndex: nat,
                         unacked: bool, priority: bool, t: Clock)
      returns (done: bool)
      requires MIN_BUFFER <= pData.Length && dataLen < pData.Length
      modifies this, pData, proxyBufferWait
      ensures var f := Frame(srcSubnet, ownSubnet, domainIndex, old(pData[..]), dataLen);
        && pData[..] == (if HopsLeft(f) > 0 then Overwritten(f).buffer else f.buffer)
        && var a := Handled(f, old(Model()), old(proxyBufferWait.Value()), unacked, priority, BufferSizes(), t);
        done == a.done && Model() == a.out && proxyBufferWait.Value() == a.wait
    {
      ghost var f := Frame(srcSubnet, ownSubnet, domainIndex, pData[..], dataLen);
      var proxyCount := pData[0] % 16;
      var relay, offset, u;
      if proxyCount > 0 {
        var to;
        to, offset := Strip(pData, dataLen, srcSubnet, ownSubnet, domainIndex);
        relay, u := Relay(to, []), unacked;
      } else {
        relay, offset := ReadAgent(pData, dataLen, srcSubnet, ownSubnet, domainIndex);
        u := relay.service == UNACKNOWLEDGED;
      }
      hide TargetOf, NextAt, Overwritten, RequestOf, CodeAt;
      var outQ := if u then if priority then nwOutPriQ else nwOutQ else if priority then tsaOutPriQ else tsaOutQ;
      if outQ.Full() {
        done := proxyBufferWait.Expired(t.now, t.again);
        if done {
          failures := failures + [proxyCount];
        } else {
          var running := proxyBufferWait.Running(t.again);
          if !running { proxyBufferWait.Set(t.later, 1000); }
        }
        return;
      }
      proxyBufferWait.Set(t.now, 0);
      done := true;
      if dataLen >= 4 && offset <= dataLen {
        Send(relay.(data := pData[offset..dataLen]), u, priority, proxyCount);
      }
    }

    /** Hands the message to its queue, or sends a failure response. */
    method Send(r: Relay, unacked: bool, priority: bool, count: byte)
      modifies this
      ensures Model() == old(Model()).Hand(r, unacked, priority, if unacked then nwOutBufSize else tsaOutBufSize, count)
    {
      if unacked {
        if nwOutQ.Full() || |r.data| + 1 > nwOutBufSize {
          failures := failures + [count];
        } else {
          nwOutQ := nwOutQ.Write(r);
        }
      } else if |r.data| + 1 > tsaOutBufSize {
        failures := failures + [count];
      } else if priority {
        tsaOutPriQ := tsaOutPriQ.Write(r);
      } else {
        tsaOutQ := tsaOutQ.Write(r);
      }
    }
  }
}
