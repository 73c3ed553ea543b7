/** The network layer of lcs_network.c at work: messages from two output queues to two link queues with
    completion events for application PDUs, and received packets to the upper layers. */
module NetworkLayer {
  import opened Bytes
  import opened SlotQueue
  import opened NetworkPdu

  datatype Completion = Completion(tag: int, success: bool)

  /** The output side: two message queues, two link queues, and the queue for completion events. */
  datatype Net = Net(nwPri: Fifo<Msg>, nw: Fifo<Msg>, lkPri: Fifo<seq<byte>>, lk: Fifo<seq<byte>>, ce: Fifo<Completion>)
  {
    function Out(priority: bool): Fifo<Msg> { if priority then nwPri else nw }
    function Link(priority: bool): Fifo<seq<byte>> { if priority then lkPri else lk }
    function WithOut(priority: bool, q: Fifo<Msg>): Net { if priority then this.(nwPri := q) else this.(nw := q) }
    function WithLink(priority: bool, q: Fifo<seq<byte>>): Net { if priority then this.(lkPri := q) else this.(lk := q) }
  }

  /** The queue NetworkLayerSend serves: priority first, and only if the link queue is not full. */
  datatype Turn = Idle | Serve(priority: bool)

  function TurnOf(n: Net): Turn {
    if n.nwPri.entries != [] && !n.lkPri.Full() then Serve(true)
    else if n.nw.entries != [] && !n.lk.Full() then Serve(false)
    else Idle
  }

  /** Does NetworkLayerSend take the first message of this queue? Not if its completion could not be told. */
  predicate Takes(n: Net, priority: bool) {
    n.Out(priority).entries != [] && !(n.Out(priority).entries[0].pduType == APDU_TYPE && n.ce.Full())
  }

  /** `NetworkLayerSend` */
  function AfterSend(c: Config, n: Net): Net {
    match TurnOf(n)
    case Idle => n
    case Serve(p) =>
      if !Takes(n, p) then n
      else
        var m := n.Out(p).entries[0];
        var taken := n.WithOut(p, n.Out(p).DropHead());
        var placed := if Built(c, m) then taken.WithLink(p, taken.Link(p).Write(Npdu(c, m))) else taken;
        if m.pduType == APDU_TYPE then placed.(ce := placed.ce.Write(Completion(m.tag, Built(c, m)))) else placed
  }

  // ------------------------------------------------------------------
  // Runs
  // ------------------------------------------------------------------

  /** What happens around the layer: messages come in, it gets its turn (with the configuration of that
      moment), and the neighbours take link packets and completion events away. */
  datatype Op =
    | Submit(priority: bool, msg: Msg)
    | Turn(config: Config)
    | TakeLink(linkPriority: bool)
    | TakeCompletion

  function Step(n: Net, op: Op): Net {
    match op
    case Submit(p, m) => n.WithOut(p, n.Out(p).Write(m))
    case Turn(c) => AfterSend(c, n)
    case TakeLink(p) => n.WithLink(p, n.Link(p).DropHead())
    case TakeCompletion => n.(ce := n.ce.DropHead())
  }

  /** The message a turn takes off an output queue, with what becomes of it. */
  datatype Handled = Handled(priority: bool, msg: Msg, built: bool, npdu: seq<byte>)

  function HandledBy(n: Net, op: Op): seq<Handled> {
    if op.Turn? && TurnOf(n).Serve? && Takes(n, TurnOf(n).priority) then
      var p := TurnOf(n).priority;
      var m := n.Out(p).entries[0];
      [Handled(p, m, Built(op.config, m), if Built(op.config, m) then Npdu(op.config, m) else [])]
    else []
  }

  /** The completion events that enter the event queue in a step: the ones at its end that were not there. */
  function NewCompletions(n: Net, op: Op): seq<Completion> {
    var before, after := n.ce.entries, Step(n, op).ce.entries;
    if op.Turn? && |after| > |before| then after[|before|..] else []
  }

  function NewPackets(n: Net, op: Op, priority: bool): seq<seq<byte>> {
    var before, after := n.Link(priority).entries, Step(n, op).Link(priority).entries;
    if op.Turn? && |after| > |before| then after[|before|..] else []
  }

  function Submitted(n: Net, op: Op, priority: bool): seq<Msg> {
    if op.Submit? && op.priority == priority && n.Out(priority).HasRoom() then [op.msg] else []
  }

  /** The record of a run. */
  datatype Log = Log(handled: seq<Handled>, completions: seq<Completion>,
                     packetsPri: seq<seq<byte>>, packets: seq<seq<byte>>,
                     submittedPri: seq<Msg>, submitted: seq<Msg>)

  function StepLog(n: Net, op: Op): Log {
    Log(HandledBy(n, op), NewCompletions(n, op), NewPackets(n, op, true), NewPackets(n, op, false),
        Submitted(n, op, true), Submitted(n, op, false))
  }

  function Join(a: Log, b: Log): Log {
    Log(a.handled + b.handled, a.completions + b.completions, a.packetsPri + b.packetsPri, a.packets + b.packets,
        a.submittedPri + b.submittedPri, a.submitted + b.submitted)
  }

  function Run(n: Net, ops: seq<Op>): (Net, Log)
    decreases |ops|
  {
    if ops == [] then (n, Log([], [], [], [], [], []))
    else
      var (n', l) := Run(Step(n, ops[0]), ops[1..]);
      (n', Join(StepLog(n, ops[0]), l))
  }

  /** What one handled message calls for: its completion, its packet on the link queue of a priority, and
      its place among the messages of that priority. */
  function CompletionFor(h: Handled): seq<Completion> {
    if h.msg.pduType == APDU_TYPE then [Completion(h.msg.tag, h.built)] else []
  }

  function PacketFor(h: Handled, priority: bool): seq<seq<byte>> {
    if h.priority == priority && h.built then [h.npdu] else []
  }

  function MessageOf(h: Handled, priority: bool): seq<Msg> {
    if h.priority == priority then [h.msg] else []
  }

  function CompletionsFor(hs: seq<Handled>): seq<Completion> {
    if hs == [] then [] else CompletionFor(hs[0]) + CompletionsFor(hs[1..])
  }

  function PacketsFor(hs: seq<Handled>, priority: bool): seq<seq<byte>> {
    if hs == [] then [] else PacketFor(hs[0], priority) + PacketsFor(hs[1..], priority)
  }

  function MessagesOf(hs: seq<Handled>, priority: bool): seq<Msg> {
    if hs == [] then [] else MessageOf(hs[0], priority) + MessagesOf(hs[1..], priority)
  }

  /** Whenever a message is taken, the queues it leads to have a slot that QueueWrite accepts. */
  ghost predicate Roomy(n: Net, op: Op) {
    op.Turn? && TurnOf(n).Serve? ==> n.Link(TurnOf(n).priority).HasRoom() && n.ce.HasRoom()
  }

  ghost predicate RoomyRun(n: Net, ops: seq<Op>)
    decreases |ops|
  {
    ops == [] || (Roomy(n, ops[0]) && RoomyRun(Step(n, ops[0]), ops[1..]))
  }

  /** What a record must look like. */
  ghost predicate Faithful(n: Net, n': Net, l: Log) {
    && l.completions == CompletionsFor(l.handled)
    && l.packetsPri == PacketsFor(l.handled, true) && l.packets == PacketsFor(l.handled, false)
    && n.nwPri.entries + l.submittedPri == MessagesOf(l.handled, true) + n'.nwPri.entries
    && n.nw.entries + l.submitted == MessagesOf(l.handled, false) + n'.nw.entries
  }

  lemma OneHandled(h: Handled, p: bool)
    ensures CompletionsFor([h]) == CompletionFor(h)
    ensures PacketsFor([h], p) == PacketFor(h, p) && MessagesOf([h], p) == MessageOf(h, p)
  {
    assert [h][1..] == [];
  }

  lemma AppendedTail<T>(a: seq<T>, x: T)
    ensures (a + [x])[|a|..] == [x] && |a + [x]| == |a| + 1
  {}

  /** While a priority message can be served, a turn leaves the other two queues alone. */
  lemma PriorityFirst(n: Net, c: Config)
    requires n.nwPri.entries != [] && !n.lkPri.Full()
    ensures AfterSend(c, n).nw == n.nw && AfterSend(c, n).lk == n.lk
    ensures AfterSend(c, n).nwPri == n.nwPri <==> n.nwPri.entries[0].pduType == APDU_TYPE && n.ce.Full()
  {
    assert |n.nwPri.entries[1..]| < |n.nwPri.entries|;
  }

  /** Exactly when a turn takes a message: the first of the priority queue if its link queue is not full, else the
      first of the normal one on the same condition, and an application PDU only if its completion can be told. */
  lemma TakenIff(n: Net, c: Config)
    ensures var n', waiting := AfterSend(c, n), n.nwPri.entries != [] && !n.lkPri.Full();
      && (|n'.nwPri.entries| == |n.nwPri.entries| - 1 <==> waiting && (n.nwPri.entries[0].pduType == APDU_TYPE ==> !n.ce.Full()))
      && (|n'.nw.entries| == |n.nw.entries| - 1 <==>
            !waiting && n.nw.entries != [] && !n.lk.Full() && (n.nw.entries[0].pduType == APDU_TYPE ==> !n.ce.Full()))
      && (|n'.nwPri.entries| == |n.nwPri.entries| || |n'.nwPri.entries| == |n.nwPri.entries| - 1)
      && (|n'.nw.entries| == |n.nw.entries| || |n'.nw.entries| == |n.nw.entries| - 1)
  {
    hide Built, Npdu;
  }

  lemma TurnCompletes(n: Net, c: Config)
    requires Roomy(n, Turn(c))
    ensures NewCompletions(n, Turn(c)) == CompletionsFor(HandledBy(n, Turn(c)))
  {
    hide Built, Npdu;
    var hs := HandledBy(n, Turn(c));
    if hs != [] {
      OneHandled(hs[0], true);
      assert hs == [hs[0]];
      AppendedTail(n.ce.entries, Completion(hs[0].msg.tag, hs[0].built));
    }
  }

  lemma TurnPlaces(n: Net, c: Config, p: bool)
    requires Roomy(n, Turn(c))
    ensures NewPackets(n, Turn(c), p) == PacketsFor(HandledBy(n, Turn(c)), p)
  {
    hide Built, Npdu;
    var hs := HandledBy(n, Turn(c));
    if hs != [] {
      OneHandled(hs[0], p);
      assert hs == [hs[0]];
      AppendedTail(n.Link(p).entries, hs[0].npdu);
    }
  }

  lemma TurnTakesFirst(n: Net, c: Config, p: bool)
    ensures var hs := HandledBy(n, Turn(c));
      AfterSend(c, n).Out(p) == if hs != [] && hs[0].priority == p then n.Out(p).DropHead() else n.Out(p)
  {
    hide Built, Npdu;
  }

  lemma TurnKeepsMessages(n: Net, c: Config, p: bool)
    ensures n.Out(p).entries == MessagesOf(HandledBy(n, Turn(c)), p) + AfterSend(c, n).Out(p).entries
  {
    hide Built, Npdu;
    var hs := HandledBy(n, Turn(c));
    var q := n.Out(p).entries;
    TurnTakesFirst(n, c, p);
    hide AfterSend;
    if hs == [] {
      assert q == [] + q;
    } else {
      assert hs == [hs[0]];
      OneHandled(hs[0], p);
      hide MessagesOf;
      if hs[0].priority == p { assert q == [q[0]] + q[1..]; } else { assert q == [] + q; }
    }
  }

  lemma TurnIsFaithful(n: Net, c: Config)
    requires Roomy(n, Turn(c))
    ensures Faithful(n, Step(n, Turn(c)), StepLog(n, Turn(c)))
  {
    hide Roomy, AfterSend, HandledBy, CompletionsFor, PacketsFor, MessagesOf, NewCompletions, NewPackets;
    TurnCompletes(n, c);
    TurnPlaces(n, c, true);
    TurnPlaces(n, c, false);
    TurnKeepsMessages(n, c, true);
    TurnKeepsMessages(n, c, false);
    assert n.nwPri.entries + [] == n.nwPri.entries && n.nw.entries + [] == n.nw.entries;
  }

  lemma StepIsFaithful(n: Net, op: Op)
    requires Roomy(n, op)
    ensures Faithful(n, Step(n, op), StepLog(n, op))
  {
    if op.Turn? { TurnIsFaithful(n, op.config); }
  }

  lemma {:induction false} CompletionsConcat(a: seq<Handled>, b: seq<Handled>)
    ensures CompletionsFor(a + b) == CompletionsFor(a) + CompletionsFor(b)
    decreases |a|
  {
    hide CompletionFor;
    if a == [] {
      assert a + b == b;
    } else {
      assert (a + b)[1..] == a[1..] + b;
      CompletionsConcat(a[1..], b);
    }
  }

  lemma {:induction false} PacketsConcat(a: seq<Handled>, b: seq<Handled>, p: bool)
    ensures PacketsFor(a + b, p) == PacketsFor(a, p) + PacketsFor(b, p)
    decreases |a|
  {
    hide PacketFor;
    if a == [] {
      assert a + b == b;
    } else {
      assert (a + b)[1..] == a[1..] + b;
      PacketsConcat(a[1..], b, p);
    }
  }

  lemma {:induction false} MessagesConcat(a: seq<Handled>, b: seq<Handled>, p: bool)
    ensures MessagesOf(a + b, p) == MessagesOf(a, p) + MessagesOf(b, p)
    decreases |a|
  {
    hide MessageOf;
    if a == [] {
      assert a + b == b;
    } else {
      assert (a + b)[1..] == a[1..] + b;
      MessagesConcat(a[1..], b, p);
    }
  }

  lemma FaithfulJoin(n: Net, n1: Net, n2: Net, a: Log, b: Log)
    requires Faithful(n, n1, a) && Faithful(n1, n2, b)
    ensures Faithful(n, n2, Join(a, b))
  {
    CompletionsConcat(a.handled, b.handled);
    PacketsConcat(a.handled, b.handled, true);
    PacketsConcat(a.handled, b.handled, false);
    MessagesConcat(a.handled, b.handled, true);
    MessagesConcat(a.handled, b.handled, false);
    Regroup(n.nwPri.entries, a.submittedPri, MessagesOf(a.handled, true), n1.nwPri.entries,
            b.submittedPri, MessagesOf(b.handled, true), n2.nwPri.entries);
    Regroup(n.nw.entries, a.submitted, MessagesOf(a.handled, false), n1.nw.entries,
            b.submitted, MessagesOf(b.handled, false), n2.nw.entries);
  }

  /** Over every run in which the target queues have room: each application PDU taken from an output
      queue produces exactly one completion with its tag, successful exactly when its packet went to the
      link queue; other PDUs produce none; and per priority, packets leave in the order in which messages
      came, none lost and none twice. */
  lemma {:induction false} RunIsFaithful(n: Net, ops: seq<Op>)
    requires RoomyRun(n, ops)
    ensures Faithful(n, Run(n, ops).0, Run(n, ops).1)
    decreases |ops|
  {
    if ops == [] {
      assert n.nwPri.entries + [] == [] + n.nwPri.entries && n.nw.entries + [] == [] + n.nw.entries;
    } else {
      var n1 := Step(n, ops[0]);
      StepIsFaithful(n, ops[0]);
      hide Step, StepLog, Faithful, Roomy;
      RunIsFaithful(n1, ops[1..]);
      FaithfulJoin(n, n1, Run(n1, ops[1..]).0, StepLog(n, ops[0]), Run(n1, ops[1..]).1);
    }
  }

  /** The link queues and the event queue have room for all that waits, and one slot more. */
  ghost predicate RoomForAll(n: Net) {
    && |n.lkPri.entries| + |n.nwPri.entries| < n.lkPri.capacity
    && |n.lk.entries| + |n.nw.entries| < n.lk.capacity
    && |n.ce.entries| + |n.nwPri.entries| + |n.nw.entries| < n.ce.capacity
  }

  function Turns(c: Config, k: nat): seq<Op> {
    if k == 0 then [] else [Turn(c)] + Turns(c, k - 1)
  }

  lemma TurnInRoom(n: Net, c: Config)
    requires RoomForAll(n) && (n.nwPri.entries != [] || n.nw.entries != [])
    ensures var n' := AfterSend(c, n);
      Roomy(n, Turn(c)) && RoomForAll(n') && |n'.nwPri.entries| + |n'.nw.entries| == |n.nwPri.entries| + |n.nw.entries| - 1
  {
    hide Built, Npdu;
  }

  /** Given that room, as many turns as there are messages send or drop them all, with all the books of a run. */
  lemma {:induction false} EverythingIsServed(n: Net, c: Config)
    requires RoomForAll(n)
    ensures var ops := Turns(c, |n.nwPri.entries| + |n.nw.entries|);
      && RoomyRun(n, ops) && Run(n, ops).0.nwPri.entries == [] && Run(n, ops).0.nw.entries == []
    decreases |n.nwPri.entries| + |n.nw.entries|
  {
    hide *;
    var k := |n.nwPri.entries| + |n.nw.entries|;
    TurnsAre(c, k);
    if k > 0 {
      TurnInRoom(n, c);
      EverythingIsServed(AfterSend(c, n), c);
      TurnIsStep(n, c);
      OneMoreStep(n, Turn(c), Turns(c, k), Turns(c, k - 1));
    } else {
      NothingToServe(n);
    }
  }

  lemma TurnsAre(c: Config, k: nat)
    ensures if k == 0 then Turns(c, k) == [] else Turns(c, k) != [] && Turns(c, k)[0] == Turn(c) && Turns(c, k)[1..] == Turns(c, k - 1)
  {}

  lemma TurnIsStep(n: Net, c: Config)
    ensures Step(n, Turn(c)) == AfterSend(c, n)
  {
    hide AfterSend;
  }

  lemma NothingToServe(n: Net)
    ensures RoomyRun(n, []) && Run(n, []).0 == n
  {}

  lemma OneMoreStep(n: Net, op: Op, ops: seq<Op>, rest: seq<Op>)
    requires ops != [] && ops[0] == op && ops[1..] == rest
    requires Roomy(n, op) && RoomyRun(Step(n, op), rest)
    ensures RoomyRun(n, ops) && Run(n, ops).0 == Run(Step(n, op), rest).0
  {
    hide Step, Roomy, StepLog, Join;
  }

  /** QueueFull leaves one slot that QueueWrite refuses: a turn that takes a buildable message reports
      success and yet places nothing exactly when the link queue is down to that slot. */
  lemma SuccessIsPlacedIff(n: Net, c: Config)
    requires TurnOf(n).Serve? && Takes(n, TurnOf(n).priority)
    requires Built(c, n.Out(TurnOf(n).priority).entries[0])
    ensures NewPackets(n, Turn(c), TurnOf(n).priority) == [Npdu(c, n.Out(TurnOf(n).priority).entries[0])]
      <==> |n.Link(TurnOf(n).priority).entries| + 1 != n.Link(TurnOf(n).priority).capacity
  {}

  // ------------------------------------------------------------------
  // Sending: the NPDU is built in the slot that the link queue reserves at its tail
  // ------------------------------------------------------------------

  class NetworkSender {
    var nwOutPriQ: Fifo<Msg>
    var nwOutQ: Fifo<Msg>
    var lkOutPriQ: Fifo<seq<byte>>
    var lkOutQ: Fifo<seq<byte>>
    var appCeRspInQ: Fifo<Completion>
    var config: Config
    /** The pair of queues being served. */
    var current: bool
    /** The packet bytes of the tail slot of the current link queue. */
    const slot: array<byte>

    ghost predicate Valid()
      reads this
    {
      slot.Length == config.outBufSize && slot.Length >= MIN_SLOT
    }

    ghost function Model(): Net
      reads this
    {
      Net(nwOutPriQ, nwOutQ, lkOutPriQ, lkOutQ, appCeRspInQ)
    }

    constructor (c: Config, nwPri: nat, nw: nat, lkPri: nat, lk: nat, ce: nat)
      requires c.outBufSize >= MIN_SLOT
      ensures Valid() && fresh(slot) && config == c
      ensures Model() == Net(Fifo(nwPri, []), Fifo(nw, []), Fifo(lkPri, []), Fifo(lk, []), Fifo(ce, []))
    {
      config, current := c, false;
      nwOutPriQ, nwOutQ := Fifo(nwPri, []), Fifo(nw, []);
      lkOutPriQ, lkOutQ, appCeRspInQ := Fifo(lkPri, []), Fifo(lk, []), Fifo(ce, []);
      slot := new byte[c.outBufSize](_ => 0);
    }

    method DropHead()
      modifies this`nwOutPriQ, this`nwOutQ
      ensures Model() == old(Model()).WithOut(current, old(Model()).Out(current).DropHead())
    {
      if current { nwOutPriQ := nwOutPriQ.DropHead(); } else { nwOutQ := nwOutQ.DropHead(); }
    }

    method Complete(m: Msg, success: bool)
      modifies this`appCeRspInQ
      ensures appCeRspInQ ==
        if m.pduType == APDU_TYPE then old(appCeRspInQ).Write(Completion(m.tag, success)) else old(appCeRspInQ)
    {
      if m.pduType == APDU_TYPE { appCeRspInQ := appCeRspInQ.Write(Completion(m.tag, success)); }
    }

    /** `NWSendTerminate` */
    method Terminate()
      requires Model().Out(current).entries != []
      modifies this`nwOutPriQ, this`nwOutQ, this`appCeRspInQ
      ensures var m, n := old(Model()).Out(current).entries[0], old(Model());
        Model() == n.WithOut(current, n.Out(current).DropHead())
                   .(ce := if m.pduType == APDU_TYPE then n.ce.Write(Completion(m.tag, false)) else n.ce)
    {
      var m := (if current then nwOutPriQ else nwOutQ).entries[0];
      Complete(m, false);
      DropHead();
    }

    /** Appends to the part of the slot that is written. */
    method Append(at: nat, b: seq<byte>) returns (next: nat)
      requires at + |b| <= slot.Length
      modifies slot
      ensures next == at + |b| && slot[..next] == old(slot[..at]) + b
    {
      CopyIn(slot, at, b);
      next := at + |b|;
    }

    /** The destination address, and where the domain goes after it. */
    method WriteDest(at: nat, d: Dest) returns (next: nat)
      requires !d.UnknownMode? && at + 7 <= slot.Length
      modifies slot
      ensures next == at + |DestBytes(d)| && slot[..next] == old(slot[..at]) + DestBytes(d)
    {
      match d
      case Broadcast(s) => next := Append(at, [s]);
      case Multicast(g) => next := Append(at, [g]);
      case SubnetNode(s, n) => next := Append(at, [s, 128 + n % 128]);
      case MulticastAck(s, n, g, m) => next := Append(at, [s, 128 + n % 128, g, m]);
      case UniqueNodeId(s, uid) => next := Append(at, [s] + uid);
    }

    /** The source address in the own domain of the message, or 0/0. */
    method WriteSource(m: Msg, numDomains: nat)
      requires Valid() && numDomains == NumDomains(config)
      modifies slot
      ensures slot[..3] == [old(slot[0])] + SourceBytes(config, m)
    {
      if m.domainIndex < numDomains {
        var selField := if m.dest.MulticastAck? then 0 else 1;
        slot[1] := config.domains[m.domainIndex].subnet;
        slot[2] := 128 * selField + config.domains[m.domainIndex].nodeClone % 128;
      } else {
        slot[1] := 0;
        slot[2] := 128;
      }
    }

    /** The bit fields of the first byte are written one by one. */
    method SetVersionAndType(m: Msg)
      requires Valid()
      modifies slot
      ensures slot[0] / 16 == 4 * m.version + m.pduType
    {
      slot[0] := 64 * m.version + 16 * m.pduType + slot[0] % 16;
    }

    method SetFormat(format: nat)
      requires Valid() && format < 4
      modifies slot
      ensures slot[0] / 4 == 4 * old(slot[0] / 16) + format
    {
      ghost var high, low := slot[0] / 16, slot[0] % 4;
      slot[0] := slot[0] / 16 * 16 + 4 * format + slot[0] % 4;
      assert slot[0] == 4 * (4 * high + format) + low;
    }

    method SetLengthCode(code: nat)
      requires Valid() && code < 4
      modifies slot
      ensures slot[0] == 4 * old(slot[0] / 4) + code && slot[1..3] == old(slot[1..3])
    {
      slot[0] := slot[0] / 4 * 4 + code;
    }

    /** Source address and domain length code; false if the length has no code. */
    method WriteSourceAndLength(m: Msg, numDomains: nat, domainId: seq<byte>) returns (ok: bool)
      requires Valid() && numDomains == NumDomains(config)
      modifies slot
      ensures ok <==> EncodeDomainLength(|domainId|) >= 0
      ensures ok ==> EncodeDomainLength(|domainId|) < 4
      ensures ok ==> slot[0] == 4 * old(slot[0] / 4) + EncodeDomainLength(|domainId|)
      ensures ok ==> slot[..3] == [slot[0]] + SourceBytes(config, m)
    {
      WriteSource(m, numDomains);
      ghost var source := slot[..3];
      hide SourceBytes;
      var code := EncodeDomainLength(|domainId|);
      DomainLengthsRoundTrip(|domainId|, 0);
      ok := code >= 0;
      if ok {
        SetLengthCode(code);
        assert slot[..3] == [slot[0]] + slot[1..3] && slot[1..3] == source[1..];
      }
    }

    /** Destination, domain and PDU behind the three bytes written so far; -1 if that is too long. */
    method WriteRest(m: Msg, domainId: seq<byte>) returns (size: int)
      requires Valid() && !m.dest.UnknownMode? && |domainId| <= 6
      modifies slot
      ensures size >= 0 <==> 3 + |DestBytes(m.dest)| + |domainId| + |m.pdu| <= slot.Length
      ensures size <= slot.Length
      ensures size >= 0 ==> slot[..size] == old(slot[..3]) + DestBytes(m.dest) + domainId + m.pdu
    {
      var j := WriteDest(3, m.dest);
      j := Append(j, domainId);
      if j + |m.pdu| > config.outBufSize { return -1; }
      size := Append(j, m.pdu);
    }

    /** The steps of NetworkLayerSend that can end in NWSendTerminate: `size` is the length of the NPDU
        left in the slot, or -1. */
    method BuildNpdu(m: Msg) returns (size: int)
      requires Valid()
      modifies slot
      ensures size >= 0 <==> Built(config, m)
      ensures size >= 0 ==> size <= slot.Length && slot[..size] == Npdu(config, m)
    {
      SetVersionAndType(m);
      var format;
      match m.dest {
        case Broadcast(_) => format := 0;
        case Multicast(_) => format := 1;
        case SubnetNode(_, _) => format := 2;
        case MulticastAck(_, _, _, _) => format := 2;
        case UniqueNodeId(_, _) => format := 3;
        case UnknownMode => return -1;
      }
      hide DestBytes, SourceBytes, EncodeDomainLength;
      SetFormat(format);
      var numDomains := if config.twoDomains then 2 else 1;
      if m.dropIfUnconfigured && m.domainIndex != FLEX_DOMAIN && !config.onLine { return -1; }
      if m.domainIndex < numDomains && config.domains[m.domainIndex].invalid { return -1; }
      var domainId := m.flexId[..m.flexLen];
      if m.domainIndex < numDomains {
        domainId := config.domains[m.domainIndex].id[..config.domains[m.domainIndex].idLen];
      }
      var ok := WriteSourceAndLength(m, numDomains, domainId);
      if !ok { return -1; }
      size := WriteRest(m, domainId);
    }

    /** `NetworkLayerSend` */
    method Send()
      requires Valid()
      modifies this`nwOutPriQ, this`nwOutQ, this`lkOutPriQ, this`lkOutQ, this`appCeRspInQ, this`current, slot
      ensures Valid() && Model() == AfterSend(config, old(Model()))
    {
      if nwOutPriQ.entries != [] && !lkOutPriQ.Full() {
        current := true;
      } else if nwOutQ.entries != [] && !lkOutQ.Full() {
        current := false;
      } else {
        return;
      }
      var m := (if current then nwOutPriQ else nwOutQ).entries[0];
      if m.pduType == APDU_TYPE && appCeRspInQ.Full() { return; }
      var size := BuildNpdu(m);
      hide Built, Npdu;
      if size < 0 {
        Terminate();
      } else {
        DropHead();
        if current { lkOutPriQ := lkOutPriQ.Write(slot[..size]); } else { lkOutQ := lkOutQ.Write(slot[..size]); }
        Complete(m, true);
      }
    }
  }
}
