/** The packet bookkeeping of the image update protocol in lcs_iup.c: what is in flash, what is in RAM,
    and what is left of both when power is lost at any point. */
module ImageTransfer {
  import opened Bytes
  import opened SlotQueue

  const EEPROM_NOT_WRITTEN: byte := 0xFF
  const EEPROM_WRITTEN: byte := 0x01
  const FLAG_SLOTS := 4070        // one 4096-byte block less the 26 bytes of persistent data
  const CELLS := 65536            // one for every 16-bit packet number
  const IUP_PACKET_SIZE_SUPPORTED := 240
  const MAX_PACKET_COUNT_IN_CONFIRM_RESPONSE := 20

  /** A transfer as it was announced. */
  datatype RawInit = Announced(session: nat, packetLen: nat, packetCount: nat)
  type InitData = i: RawInit | i.packetLen < 65536 && i.packetCount < 65536 witness Announced(0, 0, 0)

  const NO_INIT: InitData := Announced(0, 0, 0)

  /** The packet that set a flag. */
  datatype Entry = Entry(session: nat, payload: seq<byte>)

  /** Flash: the persistent data (valid, stored, storedOk), the cells and the partition. Cell p is the byte
      looked at for packet p: cell 0 is the last byte of the persistent data, cells 1 to 4070 are the flags,
      and the ones behind lie outside the block. RAM: the announcement, the count, the confirmation and the
      running timer. For the record only: the transfer that flash is about, and the packets that set flags
      since the last erase. */
  datatype RawNode = Node(
    valid: bool, stored: InitData, storedOk: bool, cells: seq<byte>, part: seq<byte>,
    init: InitData, rcvd: nat, ok: bool, due: bool,
    base: InitData, log: map<nat, Entry>)
  type Node = n: RawNode | |n.cells| == CELLS
    witness RawNode.Node(false, NO_INIT, false, seq(CELLS, _ => EEPROM_NOT_WRITTEN), [], NO_INIT, 0, false, false, NO_INIT, map[])

  predicate IsSet(n: Node, p: nat) {
    p < CELLS && n.cells[p] != EEPROM_NOT_WRITTEN
  }

  /** The number of flags set for packets 1 to c. */
  function CountSet(cells: seq<byte>, c: nat): (r: nat)
    requires c < |cells|
    ensures r <= c
  {
    if c == 0 then 0 else CountSet(cells, c - 1) + if cells[c] != EEPROM_NOT_WRITTEN then 1 else 0
  }

  // ------------------------------------------------------------------
  // Handlers as sequences of single actions
  // ------------------------------------------------------------------

  /** The actions between which power can be lost. */
  datatype Micro =
    | SetInit(newInit: InitData)
    | StartTimer
    | ResetRam
    | EraseMeta
    | ErasePart
    | WriteHeader
    | WriteData(at: int, bytes: seq<byte>)
    | CountUp
    | WriteFlag(p: nat, entry: Entry)
    | SetOk
    | WriteOk

  /** A write into flash; what lies outside the partition is not followed. */
  function Overwritten(mem: seq<byte>, at: int, bytes: seq<byte>): (r: seq<byte>)
    ensures |r| == |mem|
    ensures forall i :: 0 <= i < |mem| ==> r[i] == if 0 <= i - at < |bytes| then bytes[i - at] else mem[i]
  {
    seq(|mem|, i requires 0 <= i < |mem| => if 0 <= i - at < |bytes| then bytes[i - at] else mem[i])
  }

  function Blank(len: nat): seq<byte> {
    seq(len, _ => EEPROM_NOT_WRITTEN)
  }

  /** The erase of the persistent data's block. */
  function Erased(cells: seq<byte>): seq<byte>
    requires |cells| == CELLS
  {
    Blank(FLAG_SLOTS + 1) + cells[FLAG_SLOTS + 1..]
  }

  function Act(n: Node, m: Micro): Node {
    match m
    case SetInit(i) => n.(init := i)
    case StartTimer => n.(due := true)
    case ResetRam => n.(rcvd := 0, ok := false, due := false)
    case EraseMeta =>
      n.(valid := false, storedOk := false, cells := Erased(n.cells),
         base := n.init, log := map[])
    case ErasePart => n.(part := Blank(|n.part|))
    case WriteHeader => n.(valid := true, stored := n.init)
    case WriteData(at, bytes) => n.(part := Overwritten(n.part, at, bytes))
    case CountUp => n.(rcvd := n.rcvd + 1)
    case WriteFlag(p, entry) =>
      if p < CELLS then n.(cells := n.cells[p := EEPROM_WRITTEN], log := n.log[p := entry]) else n
    case SetOk => n.(ok := true)
    case WriteOk => n.(storedOk := true)
  }

  function Acts(n: Node, ms: seq<Micro>): Node
    decreases |ms|
  {
    if ms == [] then n else Acts(Act(n, ms[0]), ms[1..])
  }

  /** A request to start an update; `imageOk`: the image type and subtype are the supported ones. */
  datatype Request = Request(imageOk: bool, session: nat, size: nat, count: nat, imageLen: nat)

  /** The transfer a request asks for: the packet size is cut down to the one supported. */
  function Asked(r: Request): InitData {
    if r.size > IUP_PACKET_SIZE_SUPPORTED then
      Announced(r.session, 240, (r.imageLen / 240 + if r.imageLen % 240 != 0 then 1 else 0) % 65536)
    else Announced(r.session, r.size, r.count % 65536)
  }

  datatype InitResult = WrongImage | TooLarge | CountTooHigh | Pending(largePacket: bool)

  /** `HandleNmeIupInit`. A count without room for its flags is refused only after it was stored; whether
      or not the answer names a version or model, the timer for the rest of the work is started. */
  function Announce(n: Node, r: Request): (seq<Micro>, InitResult) {
    if !r.imageOk then ([], WrongImage)
    else if r.imageLen > |n.part| then ([], TooLarge)
    else if Asked(r).packetCount > FLAG_SLOTS then ([SetInit(Asked(r))], CountTooHigh)
    else ([SetInit(Asked(r)), StartTimer], Pending(r.size > IUP_PACKET_SIZE_SUPPORTED))
  }

  /** `InitUpdateProcess`, for whatever is announced when the timer expires; erasing the partition can fail. */
  function BeginActs(eraseOk: bool): seq<Micro> {
    [ResetRam, EraseMeta] + if eraseOk then [ErasePart, WriteHeader] else []
  }

  /** Does `HandleNmeIupTransfer` go on to write this packet? */
  predicate Accepts(n: Node, session: nat, p: nat) {
    session == n.init.session && !n.ok && !IsSet(n, p)
  }

  /** Where a packet is written: packet 0 in front of the partition. */
  function At(p: nat, len: nat): int {
    var l: int := len;
    if p == 0 then -l else Offset(p - 1, len)
  }

  /** `HandleNmeIupTransfer`: data first, then the counter, then the flag. The packet is as many bytes of the
      receive buffer as were announced. A failed write leaves `left` behind. */
  function TransferActs(n: Node, session: nat, p: nat, data: seq<byte>, writeOk: bool, left: seq<byte>): seq<Micro>
    requires |data| >= n.init.packetLen
  {
    var payload := data[..n.init.packetLen];
    if !Accepts(n, session, p) then []
    else if writeOk then
      [WriteData(At(p, n.init.packetLen), payload), CountUp, WriteFlag(p, Entry(n.init.session, payload))]
    else [WriteData(At(p, n.init.packetLen), left)]
  }

  datatype Response =
    | Ignored
    | NotViable
    | Success
    | Missed(packets: seq<nat>)

  /** The packets above `from`, up to `count`, whose flag is missing; at most `room` of them. */
  function Missing(cells: seq<byte>, from: nat, count: nat, room: nat): seq<nat>
    requires from <= count < |cells|
    decreases count - from
  {
    if from == count || room == 0 then []
    else if cells[from + 1] == EEPROM_NOT_WRITTEN then [from + 1] + Missing(cells, from + 1, count, room - 1)
    else Missing(cells, from + 1, count, room)
  }

  /** `HandleNmeIupConfirm` */
  function Confirm(n: Node, session: nat): (seq<Micro>, Response)
  {
    if session != n.init.session then ([], Ignored)
    else if n.rcvd < 80 * n.init.packetCount / 100 then ([], NotViable)
    else if n.init.packetCount == n.rcvd then ([SetOk, WriteOk], Success)
    else
      var missing := Missing(n.cells, 0, n.init.packetCount, MAX_PACKET_COUNT_IN_CONFIRM_RESPONSE);
      ([], if missing == [] then Success else Missed(missing))
  }

  /** `readIupPersistData`: the flags found are added to the counter. */
  function Restore(n: Node): Node {
    if n.valid then
      n.(init := n.stored, base := n.stored, ok := n.storedOk, rcvd := n.rcvd + CountSet(n.cells, n.stored.packetCount))
    else n
  }

  /** Power comes back: RAM starts from zero and the persistent data is read once. */
  function PowerUp(n: Node): Node {
    Restore(n.(init := NO_INIT, base := NO_INIT, rcvd := 0, ok := false, due := false))
  }

  // ------------------------------------------------------------------
  // The invariant
  // ------------------------------------------------------------------

  /** The packet that set flag p belongs to transfer i and is in the partition, where i puts it. */
  ghost predicate Stored(n: Node, p: nat, i: InitData)
    requires p >= 1
  {
    var at := Offset(p - 1, i.packetLen);
    && p in n.log && n.log[p].session == i.session && |n.log[p].payload| == i.packetLen
    && at + i.packetLen <= |n.part|
    && n.part[at..at + i.packetLen] == n.log[p].payload
  }

  ghost predicate DataOk(n: Node, i: InitData) {
    forall p :: 1 <= p <= i.packetCount && IsSet(n, p) ==> Stored(n, p, i)
  }

  ghost predicate NoneMissing(n: Node, i: InitData) {
    forall p :: 1 <= p <= i.packetCount ==> IsSet(n, p)
  }

  /** What should hold between any two handler steps, of the transfer that flash is about. */
  ghost predicate Inv(n: Node) {
    && DataOk(n, n.base)
    && n.rcvd == CountSet(n.cells, n.base.packetCount)
    && (n.valid ==> n.stored == n.base && n.storedOk == n.ok)
    && (n.ok ==> NoneMissing(n, n.base))
  }

  /** What flash alone must satisfy for a restart to be safe. */
  ghost predicate FlashOk(n: Node) {
    n.valid ==> DataOk(n, n.stored) && (n.storedOk ==> NoneMissing(n, n.stored))
  }

  /** The transfer that was announced last is the one that flash is about. */
  predicate InStep(n: Node) {
    n.init == n.base
  }

  /** A restart is safe exactly if flash is; it always brings announcement and flash into step. */
  lemma RestartIff(n: Node)
    ensures Inv(PowerUp(n)) <==> FlashOk(n)
    ensures InStep(PowerUp(n))
  {
    var u := PowerUp(n);
    assert DataOk(u, n.stored) <==> DataOk(n, n.stored) by {
      assert forall p :: 1 <= p <= n.stored.packetCount ==> (Stored(u, p, n.stored) <==> Stored(n, p, n.stored));
    }
    assert NoneMissing(u, n.stored) <==> NoneMissing(n, n.stored) by {
      assert forall p :: 1 <= p <= n.stored.packetCount ==> (IsSet(u, p) <==> IsSet(n, p));
    }
  }

  lemma InvFlash(n: Node)
    requires Inv(n)
    ensures FlashOk(n)
  {}

  lemma {:induction false} CountOfFlags(cells: seq<byte>, c: nat, p: nat)
    requires c < |cells| && p < |cells| && cells[p] == EEPROM_NOT_WRITTEN
    ensures CountSet(cells[p := EEPROM_WRITTEN], c) == CountSet(cells, c) + if 1 <= p <= c then 1 else 0
  {
    if c > 0 { CountOfFlags(cells, c - 1, p); }
  }

  lemma {:induction false} CountBounds(cells: seq<byte>, c: nat)
    requires c < |cells|
    ensures CountSet(cells, c) == 0 <==> forall p :: 1 <= p <= c ==> cells[p] == EEPROM_NOT_WRITTEN
    ensures CountSet(cells, c) == c <==> forall p :: 1 <= p <= c ==> cells[p] != EEPROM_NOT_WRITTEN
  {
    if c > 0 { CountBounds(cells, c - 1); }
  }

  lemma FullIff(n: Node, i: InitData)
    ensures NoneMissing(n, i) <==> CountSet(n.cells, i.packetCount) == i.packetCount
  {
    CountBounds(n.cells, i.packetCount);
    assert forall p :: 1 <= p <= i.packetCount ==> (IsSet(n, p) <==> n.cells[p] != EEPROM_NOT_WRITTEN);
  }

  // ------------------------------------------------------------------
  // What single actions do to the record of received packets
  // ------------------------------------------------------------------

  predicate InRegion(i: InitData, p: nat, x: nat)
    requires p >= 1
  {
    Offset(p - 1, i.packetLen) <= x < Offset(p - 1, i.packetLen) + i.packetLen
  }

  /** A write leaves another byte at x than there was. */
  predicate Changes(mem: seq<byte>, at: int, bytes: seq<byte>, x: nat) {
    x < |mem| && 0 <= x - at < |bytes| && bytes[x - at] != mem[x]
  }

  /** A write changes a byte of a packet whose flag is set. */
  ghost predicate Disturbs(n: Node, i: InitData, at: int, bytes: seq<byte>) {
    exists p, x :: 1 <= p <= i.packetCount && IsSet(n, p) && InRegion(i, p, x) && Changes(n.part, at, bytes, x)
  }

  lemma StoredAfterWrite(n: Node, p: nat, i: InitData, at: int, bytes: seq<byte>)
    requires p >= 1 && Stored(n, p, i)
    ensures Stored(Act(n, WriteData(at, bytes)), p, i) <==> forall x :: InRegion(i, p, x) ==> !Changes(n.part, at, bytes, x)
  {
    var part', lo, hi := Overwritten(n.part, at, bytes), Offset(p - 1, i.packetLen), Offset(p - 1, i.packetLen) + i.packetLen;
    forall x: nat | lo <= x < hi ensures !Changes(n.part, at, bytes, x) <==> part'[lo..hi][x - lo] == n.part[lo..hi][x - lo] {
      assert part'[lo..hi][x - lo] == part'[x] && n.part[lo..hi][x - lo] == n.part[x];
    }
    if part'[lo..hi] != n.part[lo..hi] {
      var k :| 0 <= k < hi - lo && part'[lo..hi][k] != n.part[lo..hi][k];
      assert InRegion(i, p, lo + k) && part'[lo..hi][(lo + k) - lo] != n.part[lo..hi][(lo + k) - lo];
    }
  }

  lemma DataWriteIff(n: Node, i: InitData, at: int, bytes: seq<byte>)
    requires DataOk(n, i)
    ensures DataOk(Act(n, WriteData(at, bytes)), i) <==> !Disturbs(n, i, at, bytes)
  {
    var n' := Act(n, WriteData(at, bytes));
    forall p | 1 <= p <= i.packetCount && IsSet(n, p)
      ensures Stored(n', p, i) <==> forall x :: InRegion(i, p, x) ==> !Changes(n.part, at, bytes, x)
    {
      StoredAfterWrite(n, p, i, at, bytes);
    }
    hide Stored, InRegion, Changes, Overwritten;
    assert forall p :: IsSet(n', p) <==> IsSet(n, p);
  }

  /** A packet of the announced transfer fits the layout of transfer i and the partition. */
  predicate Fits(n: Node, p: nat, i: InitData)
    requires p >= 1
  {
    n.init.session == i.session && n.init.packetLen == i.packetLen && Offset(p - 1, i.packetLen) + i.packetLen <= |n.part|
  }

  /** A fitting packet whose flag is not set lies apart from all whose flags are. */
  lemma FittingDisturbsNone(n: Node, p: nat, i: InitData, bytes: seq<byte>)
    requires p >= 1 && !IsSet(n, p) && |bytes| == i.packetLen
    ensures !Disturbs(n, i, Offset(p - 1, i.packetLen), bytes)
  {
    forall q, x | 1 <= q <= i.packetCount && IsSet(n, q) && InRegion(i, q, x)
      ensures !Changes(n.part, Offset(p - 1, i.packetLen), bytes, x)
    {
      if q < p { SlotsApart(q - 1, p - 1, i.packetLen); } else { SlotsApart(p - 1, q - 1, i.packetLen); }
    }
  }

  /** Setting the flag of a packet keeps the record exactly if the packet was stored as it should be. */
  lemma FlagIff(n: Node, p: nat, e: Entry, i: InitData)
    requires p < CELLS && !IsSet(n, p)
    ensures var n' := Act(n, WriteFlag(p, e));
      DataOk(n', i) <==> DataOk(n, i) && (1 <= p <= i.packetCount ==> Stored(n', p, i))
  {
    var n' := Act(n, WriteFlag(p, e));
    forall q | 1 <= q <= i.packetCount && q != p
      ensures (IsSet(n', q) <==> IsSet(n, q)) && (Stored(n', q, i) <==> Stored(n, q, i))
    {}
    hide Stored;
    if DataOk(n', i) {
      forall q | 1 <= q <= i.packetCount && IsSet(n, q) ensures Stored(n, q, i) { assert q != p; }
    }
  }

  /** The node after the three actions of an accepted packet. */
  function Taken(n: Node, p: nat, payload: seq<byte>): Node {
    Act(Act(Act(n, WriteData(At(p, n.init.packetLen), payload)), CountUp), WriteFlag(p, Entry(n.init.session, payload)))
  }

  lemma WrittenIff(n: Node, p: nat, payload: seq<byte>, i: InitData)
    requires DataOk(n, i) && p < CELLS && !IsSet(n, p) && |payload| == n.init.packetLen
    ensures DataOk(Taken(n, p, payload), i) <==>
      !Disturbs(n, i, At(p, n.init.packetLen), payload) && (1 <= p <= i.packetCount ==> Fits(n, p, i))
  {
    var at, e := At(p, n.init.packetLen), Entry(n.init.session, payload);
    var n1 := Act(n, WriteData(at, payload));
    var n2 := Act(n1, CountUp);
    var n3 := Act(n2, WriteFlag(p, e));
    DataWriteIff(n, i, at, payload);
    FlagIff(n2, p, e, i);
    assert DataOk(n2, i) <==> DataOk(n1, i) by {
      assert forall q :: 1 <= q <= i.packetCount ==> (Stored(n2, q, i) <==> Stored(n1, q, i)) && (IsSet(n2, q) <==> IsSet(n1, q));
    }
    hide DataOk, Disturbs;
    if 1 <= p && Fits(n, p, i) { assert n1.part[at..at + |payload|] == payload; }
  }

  // ------------------------------------------------------------------
  // Single handlers, whole or cut short
  // ------------------------------------------------------------------

  datatype Event =
    | Init(request: Request)
    | Begin(eraseOk: bool)
    | Transfer(session: nat, packet: nat, data: seq<byte>, writeOk: bool, left: seq<byte>)
    | ConfirmRequest(confirmSession: nat)

  /** A transfer runs over a buffer that holds a packet; packet numbers have 16 bits; and the work on an
      announcement begins when its timer expires. */
  ghost predicate EventOk(n: Node, e: Event) {
    match e
    case Init(_) => true
    case Begin(_) => n.due
    case Transfer(_, p, data, _, left) => p < CELLS && |data| >= n.init.packetLen == |left|
    case ConfirmRequest(_) => true
  }

  ghost function ActsOf(n: Node, e: Event): seq<Micro>
    requires EventOk(n, e)
  {
    match e
    case Init(r) => Announce(n, r).0
    case Begin(eraseOk) => BeginActs(eraseOk)
    case Transfer(session, p, data, writeOk, left) => TransferActs(n, session, p, data, writeOk, left)
    case ConfirmRequest(session) => Confirm(n, session).0
  }

  /** What a power loss leaves of the action under way: a data write leaves anything in its region, the
      erase of the partition anything in the partition, and the write of the header any validity and any
      announcement. The other actions are in RAM, single bytes, or the erase of one block. */
  datatype Tear = Clean | TornData(bytes: seq<byte>) | TornErase(part: seq<byte>) | TornHeader(valid: bool, stored: InitData)

  function Torn(n: Node, m: Micro, t: Tear): Node {
    match t
    case Clean => n
    case TornData(bytes) => if m.WriteData? && |bytes| == |m.bytes| then Act(n, WriteData(m.at, bytes)) else n
    case TornErase(part) => if m.ErasePart? && |part| == |n.part| then n.(part := part) else n
    case TornHeader(valid, stored) => if m.WriteHeader? then n.(valid := valid, stored := stored) else n
  }

  /** Power is lost after k actions of a handler. */
  function CutShort(n: Node, ms: seq<Micro>, k: nat, t: Tear): Node
    requires k <= |ms|
  {
    var s := Acts(n, ms[..k]);
    if k < |ms| then Torn(s, ms[k], t) else s
  }

  /** A handler that runs to its end, or one that is cut short by a power loss after k actions, after
      which power comes back. */
  datatype Turn = Done(event: Event) | PowerLost(cutEvent: Event, k: nat, tear: Tear)

  ghost predicate TurnOk(n: Node, t: Turn) {
    match t
    case Done(e) => EventOk(n, e)
    case PowerLost(e, k, _) => EventOk(n, e) && k <= |ActsOf(n, e)|
  }

  ghost function After(n: Node, t: Turn): Node
    requires TurnOk(n, t)
  {
    match t
    case Done(e) => Acts(n, ActsOf(n, e))
    case PowerLost(e, k, tear) => PowerUp(CutShort(n, ActsOf(n, e), k, tear))
  }

  lemma ActsUnfold(n: Node, ms: seq<Micro>)
    ensures |ms| == 1 ==> Acts(n, ms) == Act(n, ms[0])
    ensures |ms| == 2 ==> Acts(n, ms) == Act(Act(n, ms[0]), ms[1])
    ensures |ms| == 3 ==> Acts(n, ms) == Act(Act(Act(n, ms[0]), ms[1]), ms[2])
    ensures |ms| == 4 ==> Acts(n, ms) == Act(Act(Act(Act(n, ms[0]), ms[1]), ms[2]), ms[3])
    decreases |ms|
  {
    if 1 <= |ms| <= 4 {
      hide Act;
      var n1, m1 := Act(n, ms[0]), ms[1..];
      assert Acts(n, ms) == Acts(n1, m1);
      ActsUnfold(n1, m1);
    }
  }

  // ------------------------------------------------------------------
  // Exactly when a handler keeps the invariant
  // ------------------------------------------------------------------

  /** No byte behind the flag block, up to a packet count, reads as a set flag. */
  ghost predicate BlankBehind(n: Node, count: nat) {
    forall p :: FLAG_SLOTS < p <= count ==> !IsSet(n, p)
  }

  /** A turn to its end does no harm: a beginning transfer finds its flags blank; a packet taken is an
      announced one of the transfer that flash is about, in its layout; a write that failed touched nothing
      received; and success is confirmed only for as many packets as that transfer has. */
  ghost predicate HarmlessDone(n: Node, e: Event)
    requires EventOk(n, e)
  {
    match e
    case Init(_) => true
    case Begin(_) => BlankBehind(n, n.init.packetCount)
    case Transfer(session, p, _, writeOk, left) =>
      Accepts(n, session, p) ==>
        if writeOk then 1 <= p <= n.base.packetCount && Fits(n, p, n.base)
        else !Disturbs(n, n.base, At(p, n.init.packetLen), left)
    case ConfirmRequest(_) => ActsOf(n, e) != [] ==> n.base.packetCount == n.rcvd
  }

  /** A turn cut short does no harm: what it wrote of a packet touched nothing received, a flag it set is
      right, a header it wrote (or tore) finds the flags blank, and so on; or flash is not valid. */
  ghost predicate HarmlessCut(n: Node, e: Event, k: nat, t: Tear)
    requires EventOk(n, e) && k <= |ActsOf(n, e)|
  {
    match e
    case Init(_) => true
    case Begin(_) =>
      && (k == 4 ==> BlankBehind(n, n.init.packetCount))
      && (k == 3 && t.TornHeader? && t.valid ==> BlankBehind(n, t.stored.packetCount))
    case Transfer(_, p, data, writeOk, left) =>
      var at := At(p, n.init.packetLen);
      ActsOf(n, e) != [] && n.valid ==>
        if k == 0 then t.TornData? && |t.bytes| == n.init.packetLen ==> !Disturbs(n, n.base, at, t.bytes)
        else !Disturbs(n, n.base, at, if writeOk then data[..n.init.packetLen] else left)
             && (k == 3 && 1 <= p <= n.base.packetCount ==> Fits(n, p, n.base))
    case ConfirmRequest(_) => k == 2 && n.valid ==> n.base.packetCount == n.rcvd
  }

  ghost predicate Harmless(n: Node, t: Turn)
    requires TurnOk(n, t)
  {
    match t
    case Done(e) => HarmlessDone(n, e)
    case PowerLost(e, k, tear) => HarmlessCut(n, e, k, tear)
  }

  lemma TakenIff(n: Node, p: nat, payload: seq<byte>)
    requires Inv(n) && !n.ok && p < CELLS && !IsSet(n, p) && |payload| == n.init.packetLen
    ensures Inv(Taken(n, p, payload)) <==> 1 <= p <= n.base.packetCount && Fits(n, p, n.base)
  {
    WrittenIff(n, p, payload, n.base);
    CountOfFlags(n.cells, n.base.packetCount, p);
    if 1 <= p && Fits(n, p, n.base) { FittingDisturbsNone(n, p, n.base, payload); }
    hide DataOk, Disturbs, Fits, NoneMissing, At;
  }

  lemma FailedIff(n: Node, at: int, left: seq<byte>)
    requires Inv(n) && !n.ok
    ensures Inv(Act(n, WriteData(at, left))) <==> !Disturbs(n, n.base, at, left)
  {
    DataWriteIff(n, n.base, at, left);
    hide DataOk, Disturbs, NoneMissing;
  }

  lemma TransferDoneIff(n: Node, e: Event)
    requires Inv(n) && EventOk(n, e) && e.Transfer?
    ensures Inv(Acts(n, ActsOf(n, e))) <==> HarmlessDone(n, e)
  {
    ActsUnfold(n, ActsOf(n, e));
    if Accepts(n, e.session, e.packet) {
      TakenIff(n, e.packet, e.data[..n.init.packetLen]);
      FailedIff(n, At(e.packet, n.init.packetLen), e.left);
    }
    hide Inv, Disturbs, Fits, At, Act;
  }

  /** After the erase of the block nothing is recorded as received, so every set flag behind it is wrong. */
  lemma EmptyRecordIff(n: Node, x: Node, i: InitData)
    requires x.log == map[] && x.cells == Erased(n.cells)
    ensures DataOk(x, i) <==> BlankBehind(n, i.packetCount)
    ensures CountSet(x.cells, i.packetCount) == 0 <==> BlankBehind(n, i.packetCount)
  {
    CountBounds(x.cells, i.packetCount);
    forall p | 1 <= p <= i.packetCount
      ensures (IsSet(x, p) <==> FLAG_SLOTS < p && IsSet(n, p)) && !Stored(x, p, i)
      ensures x.cells[p] != EEPROM_NOT_WRITTEN <==> FLAG_SLOTS < p && IsSet(n, p)
    {}
    hide CountSet, Erased, Stored, IsSet;
  }

  lemma BeginDoneIff(n: Node, e: Event)
    requires Inv(n) && EventOk(n, e) && e.Begin?
    ensures Inv(Acts(n, ActsOf(n, e))) <==> HarmlessDone(n, e)
  {
    var ms := ActsOf(n, e);
    ActsUnfold(n, ms);
    var n' := Acts(n, ms);
    EmptyRecordIff(n, n', n.init);
    hide DataOk, BlankBehind, CountSet, Acts;
  }

  lemma ConfirmDoneIff(n: Node, e: Event)
    requires Inv(n) && EventOk(n, e) && e.ConfirmRequest?
    ensures Inv(Acts(n, ActsOf(n, e))) <==> HarmlessDone(n, e)
  {
    var ms := ActsOf(n, e);
    ActsUnfold(n, ms);
    FullIff(n, n.base);
    if ms != [] {
      var n' := Acts(n, ms);
      assert n' == n.(ok := true, storedOk := true);
      SameFlash(n, n', n.base);
    }
    hide DataOk, NoneMissing, Act, Acts;
  }

  /** What is stored does not depend on RAM. */
  lemma SameFlash(n: Node, n': Node, i: InitData)
    requires n'.cells == n.cells && n'.part == n.part && n'.log == n.log
    ensures DataOk(n', i) <==> DataOk(n, i)
    ensures NoneMissing(n', i) <==> NoneMissing(n, i)
  {
    assert forall p :: 1 <= p <= i.packetCount ==> (IsSet(n', p) <==> IsSet(n, p)) && (Stored(n', p, i) <==> Stored(n, p, i));
  }

  // ------------------------------------------------------------------
  // Exactly when a power loss keeps it
  // ------------------------------------------------------------------

  lemma FlashRamIff(n: Node, n': Node)
    requires n'.cells == n.cells && n'.part == n.part && n'.log == n.log
    requires n'.valid == n.valid && n'.stored == n.stored && n'.storedOk == n.storedOk
    ensures FlashOk(n') <==> FlashOk(n)
  {
    SameFlash(n, n', n.stored);
  }

  /** While nothing is confirmed, a restart is safe exactly if the record of received packets is right. */
  lemma UnconfirmedIff(n: Node, x: Node)
    requires Inv(n) && !n.ok && x.valid == n.valid && x.stored == n.stored && x.storedOk == n.storedOk
    ensures FlashOk(x) <==> (n.valid ==> DataOk(x, n.base))
  {
    hide DataOk, NoneMissing;
  }

  /** Where a transfer is when it is cut short. */
  lemma TransferCutAt(n: Node, e: Event, k: nat, t: Tear)
    requires EventOk(n, e) && e.Transfer? && ActsOf(n, e) != [] && k <= |ActsOf(n, e)|
    ensures var at, written := At(e.packet, n.init.packetLen), if e.writeOk then e.data[..n.init.packetLen] else e.left;
      CutShort(n, ActsOf(n, e), k, t) ==
        if k == 0 then if t.TornData? && |t.bytes| == n.init.packetLen then Act(n, WriteData(at, t.bytes)) else n
        else if k == 1 then Act(n, WriteData(at, written))
        else if k == 2 then Act(Act(n, WriteData(at, written)), CountUp)
        else Taken(n, e.packet, written)
  {
    var ms := ActsOf(n, e);
    ActsUnfold(n, ms[..k]);
    if k == 3 { assert ms[..3] == ms; }
    hide Act, At;
  }

  /** What a cut transfer has to have got right. */
  lemma TransferCutData(n: Node, e: Event, k: nat, t: Tear)
    requires DataOk(n, n.base) && EventOk(n, e) && e.Transfer? && ActsOf(n, e) != [] && k <= |ActsOf(n, e)|
    ensures (n.valid ==> DataOk(CutShort(n, ActsOf(n, e), k, t), n.base)) <==> HarmlessCut(n, e, k, t)
  {
    TransferCutAt(n, e, k, t);
    var at, written := At(e.packet, n.init.packetLen), if e.writeOk then e.data[..n.init.packetLen] else e.left;
    hide CutShort, Disturbs, Fits, At, Taken, Stored, InRegion;
    if k == 0 {
      if t.TornData? { DataWriteIff(n, n.base, at, t.bytes); }
    } else if k < 3 {
      DataWriteIff(n, n.base, at, written);
      SameFlash(Act(n, WriteData(at, written)), Act(Act(n, WriteData(at, written)), CountUp), n.base);
    } else {
      WrittenIff(n, e.packet, written, n.base);
    }
    hide DataOk, Act;
  }

  lemma TransferCutIff(n: Node, e: Event, k: nat, t: Tear)
    requires Inv(n) && EventOk(n, e) && e.Transfer? && k <= |ActsOf(n, e)|
    ensures FlashOk(CutShort(n, ActsOf(n, e), k, t)) <==> HarmlessCut(n, e, k, t)
  {
    if ActsOf(n, e) == [] {
      InvFlash(n);
      hide FlashOk;
    } else {
      TransferCutAt(n, e, k, t);
      TransferCutData(n, e, k, t);
      UnconfirmedIff(n, CutShort(n, ActsOf(n, e), k, t));
      hide FlashOk, CutShort, DataOk, HarmlessCut, NoneMissing, At;
    }
  }

  /** Flash when the work on an announcement is cut short: untouched, not valid, or blank but for a header. */
  lemma BeginShape(n: Node, eraseOk: bool, k: nat, t: Tear)
    requires k <= |BeginActs(eraseOk)|
    ensures var x := CutShort(n, BeginActs(eraseOk), k, t);
      && (k <= 1 ==> x == n.(rcvd := x.rcvd, ok := x.ok, due := x.due))
      && (k == 2 ==> !x.valid)
      && (k >= 3 ==> x.cells == Erased(n.cells) && x.log == map[] && !x.storedOk)
      && (k == 3 ==> x.valid == (t.TornHeader? && t.valid) && (t.TornHeader? ==> x.stored == t.stored))
      && (k == 4 ==> x.valid && x.stored == n.init)
  {
    var ms := BeginActs(eraseOk);
    ActsUnfold(n, ms[..k]);
    if k == 4 { assert ms[..4] == ms; }
    hide Erased, Blank;
  }

  lemma BeginCutIff(n: Node, e: Event, k: nat, t: Tear)
    requires Inv(n) && EventOk(n, e) && e.Begin? && k <= |ActsOf(n, e)|
    ensures FlashOk(CutShort(n, ActsOf(n, e), k, t)) <==> HarmlessCut(n, e, k, t)
  {
    BeginShape(n, e.eraseOk, k, t);
    var x := CutShort(n, BeginActs(e.eraseOk), k, t);
    hide CutShort, DataOk, NoneMissing, BlankBehind, Erased;
    if k <= 1 {
      InvFlash(n);
      FlashRamIff(n, x);
      hide FlashOk;
    } else if k >= 3 {
      EmptyRecordIff(n, x, x.stored);
    }
  }

  lemma ConfirmShape(n: Node, session: nat, k: nat, t: Tear)
    requires k <= |Confirm(n, session).0|
    ensures CutShort(n, Confirm(n, session).0, k, t)
      == if k == 0 then n else if k == 1 then n.(ok := true) else n.(ok := true, storedOk := true)
  {
    var ms := Confirm(n, session).0;
    ActsUnfold(n, ms[..k]);
    if k == 2 { assert ms[..2] == ms; }
    hide Missing;
  }

  lemma ConfirmCutIff(n: Node, e: Event, k: nat, t: Tear)
    requires Inv(n) && EventOk(n, e) && e.ConfirmRequest? && k <= |ActsOf(n, e)|
    ensures FlashOk(CutShort(n, ActsOf(n, e), k, t)) <==> HarmlessCut(n, e, k, t)
  {
    ConfirmShape(n, e.confirmSession, k, t);
    var x := CutShort(n, ActsOf(n, e), k, t);
    hide CutShort, DataOk, NoneMissing, Confirm;
    InvFlash(n);
    if k <= 1 {
      FlashRamIff(n, x);
      hide FlashOk;
    } else {
      FullIff(n, n.base);
      SameFlash(n, x, n.base);
    }
  }

  /** A request changes nothing but the announcement and the timer. */
  lemma InitShape(n: Node, r: Request, k: nat)
    requires k <= |Announce(n, r).0|
    ensures var x := Acts(n, Announce(n, r).0[..k]);
      x == n.(init := x.init, due := x.due)
  {
    hide Asked;
    InitActs(n, Announce(n, r).0[..k]);
  }

  lemma {:induction false} InitActs(n: Node, ms: seq<Micro>)
    requires forall i :: 0 <= i < |ms| ==> ms[i].SetInit? || ms[i].StartTimer?
    ensures var x := Acts(n, ms);
      x == n.(init := x.init, due := x.due)
    decreases |ms|
  {
    if ms != [] { InitActs(Act(n, ms[0]), ms[1..]); }
  }

  lemma AnnouncementIsRam(n: Node, x: Node)
    requires x == n.(init := x.init, due := x.due)
    ensures Inv(x) <==> Inv(n)
    ensures FlashOk(x) <==> FlashOk(n)
  {
    SameFlash(n, x, n.base);
    SameFlash(n, x, n.stored);
    hide DataOk, NoneMissing;
  }

  lemma InitKeeps(n: Node, e: Event, k: nat, t: Tear)
    requires Inv(n) && e.Init? && k <= |ActsOf(n, e)|
    ensures Inv(Acts(n, ActsOf(n, e))) && FlashOk(CutShort(n, ActsOf(n, e), k, t))
  {
    var ms := ActsOf(n, e);
    InitShape(n, e.request, k);
    InitShape(n, e.request, |ms|);
    assert ms[..|ms|] == ms;
    InvFlash(n);
    hide Inv, FlashOk, Acts;
    AnnouncementIsRam(n, Acts(n, ms));
    AnnouncementIsRam(n, Acts(n, ms[..k]));
    assert CutShort(n, ms, k, t) == Acts(n, ms[..k]);
  }

  /** One turn keeps the invariant exactly if it does no harm. */
  lemma TurnKeepsIff(n: Node, t: Turn)
    requires Inv(n) && TurnOk(n, t)
    ensures Inv(After(n, t)) <==> Harmless(n, t)
  {
    var e := if t.Done? then t.event else t.cutEvent;
    var k, tear := if t.Done? then 0 else t.k, if t.Done? then Clean else t.tear;
    RestartIff(CutShort(n, ActsOf(n, e), k, tear));
    hide Inv, FlashOk, Acts, ActsOf, CutShort, PowerUp, HarmlessDone, HarmlessCut;
    match e
    case Init(_) => InitKeeps(n, e, k, tear); assert HarmlessDone(n, e) && HarmlessCut(n, e, k, tear);
    case Begin(_) => BeginDoneIff(n, e); BeginCutIff(n, e, k, tear);
    case Transfer(_, _, _, _, _) => TransferDoneIff(n, e); TransferCutIff(n, e, k, tear);
    case ConfirmRequest(_) => ConfirmDoneIff(n, e); ConfirmCutIff(n, e, k, tear);
  }

  // ------------------------------------------------------------------
  // Whole runs
  // ------------------------------------------------------------------

  ghost predicate RunOk(n: Node, turns: seq<Turn>)
    decreases |turns|
  {
    turns == [] || (TurnOk(n, turns[0]) && RunOk(After(n, turns[0]), turns[1..]))
  }

  ghost function Run(n: Node, turns: seq<Turn>): Node
    requires RunOk(n, turns)
    decreases |turns|
  {
    if turns == [] then n else Run(After(n, turns[0]), turns[1..])
  }

  /** The invariant holds after every turn. */
  ghost predicate AllInv(n: Node, turns: seq<Turn>)
    requires RunOk(n, turns)
    decreases |turns|
  {
    Inv(n) && (turns != [] ==> AllInv(After(n, turns[0]), turns[1..]))
  }

  ghost predicate AllHarmless(n: Node, turns: seq<Turn>)
    requires RunOk(n, turns)
    decreases |turns|
  {
    turns != [] ==> Harmless(n, turns[0]) && AllHarmless(After(n, turns[0]), turns[1..])
  }

  /** Through every run of requests, beginnings, transfers and confirmations, with power lost at any point
      of any of them, the invariant (a set flag means that the packet that set it, of the transfer that
      flash is about, is in flash; the counter is the number of set flags) holds throughout exactly if no
      turn does harm. */
  lemma {:induction false} RunKeepsIff(n: Node, turns: seq<Turn>)
    requires Inv(n) && RunOk(n, turns)
    ensures AllInv(n, turns) <==> AllHarmless(n, turns)
    decreases |turns|
  {
    hide Inv, Harmless, TurnOk;
    if turns != [] {
      var n' := After(n, turns[0]);
      TurnKeepsIff(n, turns[0]);
      hide After;
      if Inv(n') { RunKeepsIff(n', turns[1..]); }
    }
  }

  // ------------------------------------------------------------------
  // Announcement and flash in and out of step
  // ------------------------------------------------------------------

  /** A packet is taken, or a confirmation gets as far as looking at packets. */
  ghost predicate Serves(n: Node, e: Event)
    requires EventOk(n, e)
  {
    match e
    case Transfer(session, p, _, _, _) => Accepts(n, session, p)
    case ConfirmRequest(session) => session == n.init.session && n.rcvd >= 80 * n.init.packetCount / 100
    case _ => false
  }

  ghost function EventOf(t: Turn): Event {
    match t
    case Done(e) => e
    case PowerLost(e, _, _) => e
  }

  /** What the other side is trusted with: packets are numbered from 1 to the announced count and fit the
      partition, and counts have room for their flags, in a torn header too. */
  ghost predicate Fair(n: Node, t: Turn) {
    && (match EventOf(t)
        case Begin(_) => n.init.packetCount <= FLAG_SLOTS
        case Transfer(_, p, _, _, _) =>
          1 <= p <= n.init.packetCount && Offset(p - 1, n.init.packetLen) + n.init.packetLen <= |n.part|
        case _ => true)
    && (t.PowerLost? && t.tear.TornHeader? ==> t.tear.stored.packetCount <= FLAG_SLOTS)
  }

  /** No packet is taken and nothing is confirmed between an announcement and the beginning of its work. */
  ghost predicate Quiet(n: Node, t: Turn)
    requires TurnOk(n, t)
  {
    Serves(n, EventOf(t)) ==> InStep(n)
  }

  lemma QuietIsHarmless(n: Node, t: Turn)
    requires Inv(n) && TurnOk(n, t) && Fair(n, t) && Quiet(n, t)
    ensures Harmless(n, t)
  {
    var e := EventOf(t);
    if e.Transfer? && Serves(n, e) {
      var at := At(e.packet, n.init.packetLen);
      FittingDisturbsNone(n, e.packet, n.base, e.left);
      FittingDisturbsNone(n, e.packet, n.base, e.data[..n.init.packetLen]);
      if t.PowerLost? && t.tear.TornData? && |t.tear.bytes| == n.init.packetLen {
        FittingDisturbsNone(n, e.packet, n.base, t.tear.bytes);
      }
      hide Disturbs, Inv;
    }
  }

  ghost predicate QuietRun(n: Node, turns: seq<Turn>)
    requires RunOk(n, turns)
    decreases |turns|
  {
    turns != [] ==> Fair(n, turns[0]) && Quiet(n, turns[0]) && QuietRun(After(n, turns[0]), turns[1..])
  }

  /** So with a trusted other side the invariant holds over every run in which nothing is served between an
      announcement and the beginning of its work. */
  lemma {:induction false} QuietRunKeepsInv(n: Node, turns: seq<Turn>)
    requires Inv(n) && RunOk(n, turns) && QuietRun(n, turns)
    ensures AllInv(n, turns)
    decreases |turns|
  {
    hide Inv, Fair, Quiet, TurnOk;
    if turns != [] {
      QuietIsHarmless(n, turns[0]);
      TurnKeepsIff(n, turns[0]);
      hide Harmless, After;
      QuietRunKeepsInv(After(n, turns[0]), turns[1..]);
    }
  }

  /** And that is needed: while another session is announced than flash is about, every packet taken breaks
      the invariant at once, and if it was one of the numbers in flash, a power loss does not mend it. */
  lemma ServedTooEarly(n: Node, e: Event)
    requires Inv(n) && EventOk(n, e) && e.Transfer? && Serves(n, e) && e.writeOk
    requires n.init.session != n.base.session
    ensures !Inv(After(n, Done(e)))
    ensures n.valid && 1 <= e.packet <= n.base.packetCount ==> !Inv(After(n, PowerLost(e, 3, Clean)))
  {
    TurnKeepsIff(n, Done(e));
    TurnKeepsIff(n, PowerLost(e, 3, Clean));
    hide Inv, After, Disturbs;
  }

  /** Such a run: a second session with longer packets is announced, and its first packet comes before the
      500 ms are over; when power is lost then, the first session comes back with a flag that is wrong. */
  lemma WrongFlagComesBack(n: Node, turns: seq<Turn>)
    requires Inv(n) && n.valid && InStep(n) && n.base == Announced(1, 1, 2) && !n.ok && !IsSet(n, 1) && |n.part| >= 2
    requires turns == [Done(Init(Request(true, 2, 2, 1, 2))), PowerLost(Transfer(2, 1, [9, 9], true, [0, 0]), 3, Clean)]
    ensures RunOk(n, turns) && !Inv(Run(n, turns)) && Run(n, turns).init == Announced(1, 1, 2)
  {
    var r, e := Request(true, 2, 2, 1, 2), Transfer(2, 1, [9, 9], true, [0, 0]);
    ActsUnfold(n, Announce(n, r).0);
    var n' := After(n, turns[0]);
    assert n' == n.(init := Announced(2, 2, 1), due := true);
    AnnouncementIsRam(n, n');
    ServedTooEarly(n', e);
    TransferCutAt(n', e, 3, Clean);
    hide After, Inv, ActsOf, TurnOk;
    RunOfTwo(n, turns);
  }

  lemma RunOfTwo(n: Node, turns: seq<Turn>)
    requires |turns| == 2 && TurnOk(n, turns[0]) && TurnOk(After(n, turns[0]), turns[1])
    ensures RunOk(n, turns) && Run(n, turns) == After(After(n, turns[0]), turns[1])
  {
    hide After, TurnOk;
    var n1, n2 := After(n, turns[0]), After(After(n, turns[0]), turns[1]);
    assert turns[1..][0] == turns[1] && turns[1..][1..] == [];
    assert RunOk(n2, []) && RunOk(n1, turns[1..]) && Run(n1, turns[1..]) == Run(n2, []);
  }

  // ------------------------------------------------------------------
  // What confirm answers
  // ------------------------------------------------------------------

  /** The list is ascending, holds only missing packets, and leaves one out only behind a full list. */
  lemma {:induction false} MissingIsLowest(cells: seq<byte>, from: nat, count: nat, room: nat)
    requires from <= count < |cells|
    ensures var m := Missing(cells, from, count, room);
      && |m| <= room
      && (forall i :: 0 <= i < |m| ==> from < m[i] <= count && cells[m[i]] == EEPROM_NOT_WRITTEN)
      && (forall i, j :: 0 <= i < j < |m| ==> m[i] < m[j])
      && (forall p :: from < p <= count && cells[p] == EEPROM_NOT_WRITTEN && p !in m ==>
            |m| == room && forall i :: 0 <= i < |m| ==> m[i] < p)
    decreases count - from
  {
    if from < count && room > 0 {
      if cells[from + 1] == EEPROM_NOT_WRITTEN {
        var rest := Missing(cells, from + 1, count, room - 1);
        MissingIsLowest(cells, from + 1, count, room - 1);
        hide Missing;
        forall p | from < p <= count && cells[p] == EEPROM_NOT_WRITTEN && p !in [from + 1] + rest
          ensures p !in rest && p != from + 1
        {
          assert ([from + 1] + rest)[0] == from + 1;
        }
      } else {
        MissingIsLowest(cells, from + 1, count, room);
      }
    }
  }

  /** A packet of the announced transfer has been received: its flag is set, by a packet of that session that
      is in the partition where it belongs. */
  ghost predicate Received(n: Node, p: nat) {
    p >= 1 && IsSet(n, p) && Stored(n, p, n.init)
  }

  ghost predicate AllReceived(n: Node) {
    forall p :: 1 <= p <= n.init.packetCount ==> Received(n, p)
  }

  /** The answer to a confirm request for the announced session, above the threshold. */
  lemma AnswerIff(n: Node)
    requires n.rcvd >= 80 * n.init.packetCount / 100
    ensures var r := Confirm(n, n.init.session).1;
      && (r == Success <==> n.init.packetCount == n.rcvd || NoneMissing(n, n.init))
      && (r == Success || r.Missed?)
  {
    var count := n.init.packetCount;
    MissingIsLowest(n.cells, 0, count, MAX_PACKET_COUNT_IN_CONFIRM_RESPONSE);
    var m := Missing(n.cells, 0, count, MAX_PACKET_COUNT_IN_CONFIRM_RESPONSE);
    hide Missing;
    assert m != [] ==> 1 <= m[0] <= count && !IsSet(n, m[0]);
    if !NoneMissing(n, n.init) {
      var p :| 1 <= p <= count && !IsSet(n, p);
      assert n.cells[p] == EEPROM_NOT_WRITTEN;
      assert m != [];
    }
  }

  ghost predicate IsMissing(n: Node, p: nat) {
    1 <= p <= n.init.packetCount && !Received(n, p)
  }

  /** In step, at or above the 80 % threshold, confirm answers success exactly when every packet has been
      received, and otherwise the lowest missing packets in order. */
  lemma ConfirmIsExact(n: Node)
    requires Inv(n) && InStep(n) && n.rcvd >= 80 * n.init.packetCount / 100
    ensures var r := Confirm(n, n.init.session).1;
      && (r == Success <==> AllReceived(n))
      && (r.Missed? <==> !AllReceived(n))
      && (r.Missed? ==>
            && |r.packets| <= MAX_PACKET_COUNT_IN_CONFIRM_RESPONSE
            && (forall i :: 0 <= i < |r.packets| ==> IsMissing(n, r.packets[i]))
            && (forall i, j :: 0 <= i < j < |r.packets| ==> r.packets[i] < r.packets[j])
            && (forall p :: IsMissing(n, p) && p !in r.packets ==>
                  |r.packets| == MAX_PACKET_COUNT_IN_CONFIRM_RESPONSE && forall i :: 0 <= i < |r.packets| ==> r.packets[i] < p))
  {
    AnswerIff(n);
    FullIff(n, n.init);
    MissingIsLowest(n.cells, 0, n.init.packetCount, MAX_PACKET_COUNT_IN_CONFIRM_RESPONSE);
    forall p | 1 <= p <= n.init.packetCount ensures Received(n, p) <==> n.cells[p] != EEPROM_NOT_WRITTEN {
      if IsSet(n, p) { assert Stored(n, p, n.base); }
    }
    assert NoneMissing(n, n.init) <==> AllReceived(n) by {
      assert forall p :: 1 <= p <= n.init.packetCount ==> (IsSet(n, p) <==> Received(n, p));
    }
    hide Missing, Inv, Received, NoneMissing, AllReceived;
  }

  /** How many of the announced packets have been received. */
  ghost function CountReceived(n: Node, c: nat): nat {
    if c == 0 then 0 else CountReceived(n, c - 1) + if Received(n, c) then 1 else 0
  }

  lemma {:induction false} ReceivedAreSet(n: Node, c: nat)
    requires Inv(n) && InStep(n) && c <= n.init.packetCount
    ensures CountReceived(n, c) == CountSet(n.cells, c)
  {
    if c > 0 {
      ReceivedAreSet(n, c - 1);
      if IsSet(n, c) { assert Stored(n, c, n.base); }
      hide Inv, Stored;
    }
  }

  /** In step, for every session and every state: a request for another session is not answered; an update of
      which less than 80 % was received is not viable; one received as a whole is a success, which is then
      remembered, in flash as well; and any other one lacks packets. */
  lemma AnswerInStep(n: Node, session: nat)
    requires Inv(n) && InStep(n)
    ensures var r, n' := Confirm(n, session).1, Acts(n, Confirm(n, session).0);
      && (r == Ignored <==> session != n.init.session)
      && (r == NotViable <==> session == n.init.session && CountReceived(n, n.init.packetCount) < 80 * n.init.packetCount / 100)
      && (r == Success <==> session == n.init.session && AllReceived(n))
      && (n'.ok <==> n.ok || r == Success) && (n'.storedOk <==> n.storedOk || r == Success)
      && n' == n.(ok := n'.ok, storedOk := n'.storedOk)
  {
    var c := n.init.packetCount;
    ActsUnfold(n, Confirm(n, session).0);
    ReceivedAreSet(n, c);
    FullIff(n, n.init);
    forall p | 1 <= p <= c ensures IsSet(n, p) <==> Received(n, p) {
      if IsSet(n, p) { assert Stored(n, p, n.base); }
    }
    assert NoneMissing(n, n.init) <==> AllReceived(n);
    hide Received, AllReceived, NoneMissing, Missing, Acts;
    if session == n.init.session && n.rcvd >= 80 * c / 100 { AnswerIff(n); }
    hide Stored;
  }

  /** Out of step it is the packets of the transfer in flash that are weighed against the announced count. */
  lemma AnswerOutOfStep(n: Node, session: nat)
    requires Inv(n)
    ensures var r, flags := Confirm(n, session).1, CountSet(n.cells, n.base.packetCount);
      && (r == Ignored <==> session != n.init.session)
      && (r == NotViable <==> session == n.init.session && flags < 80 * n.init.packetCount / 100)
      && (r == Success <==>
            session == n.init.session && flags >= 80 * n.init.packetCount / 100
            && (flags == n.init.packetCount || NoneMissing(n, n.init)))
  {
    if session == n.init.session && n.rcvd >= 80 * n.init.packetCount / 100 { AnswerIff(n); }
    hide Missing, NoneMissing;
  }

  /** Out of step nothing of the new session has been received, so the answer is right exactly if the count
      differs from the packets received before and one of the flags looked at is missing. */
  lemma ConfirmFooledIff(n: Node)
    requires Inv(n) && n.rcvd >= 80 * n.init.packetCount / 100
    requires n.init.session != n.base.session || n.init.packetLen != n.base.packetLen
    requires n.base.packetCount >= 1 && n.init.packetCount >= 1
    ensures !AllReceived(n)
    ensures (Confirm(n, n.init.session).1 == Success <==> AllReceived(n))
      <==> n.init.packetCount != n.rcvd && !NoneMissing(n, n.init)
  {
    AnswerIff(n);
    assert !Received(n, 1) by {
      if IsSet(n, 1) { assert Stored(n, 1, n.base); }
    }
    hide Confirm, Inv, NoneMissing, Received;
  }

  /** If only the count differs, and is not larger, success is right exactly if it is not the count alone
      that makes it. */
  lemma ConfirmCountIff(n: Node)
    requires Inv(n) && n.rcvd >= 80 * n.init.packetCount / 100
    requires n.init.session == n.base.session && n.init.packetLen == n.base.packetLen
    requires n.init.packetCount <= n.base.packetCount
    ensures (Confirm(n, n.init.session).1 == Success <==> AllReceived(n))
      <==> (n.init.packetCount == n.rcvd ==> NoneMissing(n, n.init))
  {
    AnswerIff(n);
    forall p | 1 <= p <= n.init.packetCount ensures Received(n, p) <==> IsSet(n, p) {
      if IsSet(n, p) { assert Stored(n, p, n.base); }
    }
    hide Confirm, Inv, Received;
  }

  /** A device that has received everything of one session and is told of another of no more packets
      confirms that one at once. */
  lemma ConfirmsNothing(n: Node, r: Request)
    requires Inv(n) && n.base.packetCount >= 1 && NoneMissing(n, n.base)
    requires r.imageOk && r.imageLen <= |n.part| && r.session != n.base.session && 1 <= Asked(r).packetCount <= n.base.packetCount
    ensures var n' := Acts(n, Announce(n, r).0);
      Confirm(n', r.session).1 == Success && !AllReceived(n')
  {
    InitShape(n, r, |Announce(n, r).0|);
    var ms := Announce(n, r).0;
    assert ms[..|ms|] == ms;
    ActsUnfold(n, ms);
    var n' := Acts(n, ms);
    AnnouncementIsRam(n, n');
    FullIff(n, n.base);
    SameFlash(n, n', n.base);
    assert NoneMissing(n', n'.init) by {
      forall p | 1 <= p <= n'.init.packetCount ensures IsSet(n', p) { assert IsSet(n, p); }
    }
    ConfirmFooledIff(n');
    AnswerIff(n');
  }

  // ------------------------------------------------------------------
  // A transfer that gets through
  // ------------------------------------------------------------------

  /** A packet of the announced transfer that fits its partition, over a flash that takes it. */
  ghost predicate Delivers(n: Node, e: Event) {
    && e.Transfer? && EventOk(n, e) && e.session == n.init.session && e.writeOk
    && 1 <= e.packet <= n.init.packetCount && Fits(n, e.packet, n.init)
  }

  /** In a transfer under way such a packet is received, and no other one gained or lost. Its bytes are then in
      the partition, unless it came before: then nothing changes. */
  lemma PacketIsReceived(n: Node, e: Event, q: nat)
    requires Inv(n) && InStep(n) && !n.ok && Delivers(n, e) && 1 <= q <= n.init.packetCount
    ensures var n' := After(n, Done(e));
      && Inv(n') && InStep(n') && !n'.ok && n'.init == n.init && |n'.part| == |n.part|
      && (Received(n', q) <==> Received(n, q) || q == e.packet)
      && if Received(n, e.packet) then n' == n else HasBytes(n', e.packet, e.data[..n.init.packetLen])
  {
    var n' := After(n, Done(e));
    ActsUnfold(n, ActsOf(n, e));
    TurnKeepsIff(n, Done(e));
    assert Inv(n');
    TransferStep(n, e);
    assert Received(n', q) <==> IsSet(n', q) by { hide After, ActsOf; }
    assert Received(n, q) <==> IsSet(n, q);
    assert Received(n, e.packet) <==> IsSet(n, e.packet);
  }

  /** The region of a packet holds these bytes. */
  ghost predicate HasBytes(n: Node, p: nat, bytes: seq<byte>)
    requires p >= 1
  {
    Offset(p - 1, n.init.packetLen) + |bytes| <= |n.part|
    && n.part[Offset(p - 1, n.init.packetLen)..Offset(p - 1, n.init.packetLen) + |bytes|] == bytes
  }

  lemma TransferStep(n: Node, e: Event)
    requires !n.ok && Delivers(n, e)
    ensures var n' := After(n, Done(e));
      && n' == n.(part := n'.part, rcvd := n'.rcvd, cells := n'.cells, log := n'.log)
      && (forall q :: 0 <= q < CELLS ==> (IsSet(n', q) <==> IsSet(n, q) || q == e.packet))
      && if IsSet(n, e.packet) then n' == n else HasBytes(n', e.packet, e.data[..n.init.packetLen])
  {
    ActsUnfold(n, ActsOf(n, e));
  }

  ghost predicate AllDeliver(n: Node, es: seq<Event>) {
    forall i :: 0 <= i < |es| ==> Delivers(n, es[i])
  }

  ghost function AfterAll(n: Node, es: seq<Event>): Node
    decreases |es|
  {
    if es == [] || !EventOk(n, es[0]) then n else AfterAll(After(n, Done(es[0])), es[1..])
  }

  /** Packet q is among the packets that came. */
  ghost predicate Came(es: seq<Event>, q: nat) {
    exists i :: 0 <= i < |es| && es[i].Transfer? && es[i].packet == q
  }

  lemma CameCons(es: seq<Event>, q: nat)
    requires es != [] && es[0].Transfer?
    ensures Came(es, q) <==> es[0].packet == q || Came(es[1..], q)
  {
    if Came(es, q) && es[0].packet != q {
      var i :| 0 <= i < |es| && es[i].Transfer? && es[i].packet == q;
      assert es[1..][i - 1] == es[i];
    }
    if Came(es[1..], q) {
      var i :| 0 <= i < |es[1..]| && es[1..][i].Transfer? && es[1..][i].packet == q;
      assert es[i + 1] == es[1..][i];
    }
  }

  /** Over any number of packets in any order: received is what was received before or is among them. */
  lemma {:induction false} PacketsAreReceived(n: Node, es: seq<Event>, q: nat)
    requires Inv(n) && InStep(n) && !n.ok && AllDeliver(n, es) && 1 <= q <= n.init.packetCount
    ensures var n' := AfterAll(n, es);
      && Inv(n') && InStep(n') && n'.init == n.init
      && (Received(n', q) <==> Received(n, q) || Came(es, q))
    decreases |es|
  {
    if es != [] {
      var n1 := After(n, Done(es[0]));
      assert Delivers(n, es[0]);
      PacketIsReceived(n, es[0], q);
      CameCons(es, q);
      hide After, Inv, Received, ActsOf, Came, HasBytes;
      forall i | 0 <= i < |es[1..]| ensures Delivers(n1, es[1..][i]) { assert Delivers(n, es[i + 1]); }
      PacketsAreReceived(n1, es[1..], q);
    }
  }

  ghost predicate AllCame(es: seq<Event>, count: nat) {
    forall q :: 1 <= q <= count ==> Came(es, q)
  }

  lemma BeginsEmpty(n: Node)
    requires Inv(n) && n.due && n.init.packetCount <= FLAG_SLOTS
    ensures var n' := After(n, Done(Begin(true)));
      && Inv(n') && InStep(n') && !n'.ok && n'.init == n.init
      && forall q :: 1 <= q <= n.init.packetCount ==> !Received(n', q)
  {
    BeginResult(n, true);
    TurnKeepsIff(n, Done(Begin(true)));
    hide Inv, Stored;
  }

  /** An update from its beginning: whatever was there before, a transfer that is announced and begun, and of which
      packets come in any order and any number of times, is confirmed as a success exactly if each of its
      packets came. */
  lemma UpdateSucceedsIff(n: Node, es: seq<Event>)
    requires Inv(n) && n.due && n.init.packetCount <= FLAG_SLOTS
    requires AllDeliver(After(n, Done(Begin(true))), es)
    ensures var n' := AfterAll(After(n, Done(Begin(true))), es);
      Confirm(n', n.init.session).1 == Success <==> AllCame(es, n.init.packetCount)
  {
    BeginsEmpty(n);
    var n1 := After(n, Done(Begin(true)));
    var n' := AfterAll(n1, es);
    hide After, Inv, Received, Came, AllDeliver;
    forall q | 1 <= q <= n.init.packetCount
      ensures Received(n', q) <==> Came(es, q)
      ensures Inv(n') && InStep(n') && n'.init == n.init
    {
      PacketsAreReceived(n1, es, q);
    }
    if n.init.packetCount == 0 { NoPackets(n1, es); }
    assert n.init.packetCount > 0 ==> Inv(n') && InStep(n') && n'.init == n.init by {
      if n.init.packetCount > 0 { PacketsAreReceived(n1, es, 1); }
    }
    hide AfterAll, Confirm;
    AnswerInStep(n', n.init.session);
    assert AllReceived(n') <==> AllCame(es, n.init.packetCount);
  }

  lemma NoPackets(n: Node, es: seq<Event>)
    requires n.init.packetCount == 0 && AllDeliver(n, es)
    ensures AfterAll(n, es) == n
  {
    assert es != [] ==> Delivers(n, es[0]);
  }

  /** What a request does, by its fields: the answer in the order of the tests, and the announcement, which is kept
      unless the image is wrong or too large. */
  lemma InitOutcome(n: Node, r: Request)
    ensures var n', answer := Acts(n, Announce(n, r).0), Announce(n, r).1;
      && (answer == WrongImage <==> !r.imageOk)
      && (answer == TooLarge <==> r.imageOk && r.imageLen > |n.part|)
      && (answer == CountTooHigh <==> r.imageOk && r.imageLen <= |n.part| && Asked(r).packetCount > 4070)
      && (answer.Pending? ==> (answer.largePacket <==> r.size > 240))
      && n' == n.(init := if r.imageOk && r.imageLen <= |n.part| then Asked(r) else n.init, due := n.due || answer.Pending?)
  {
    ActsUnfold(n, Announce(n, r).0);
    assert Acts(n, []) == n;
    hide Asked;
  }

  /** Packets of more than 240 bytes are cut down to 240, as many as the image needs, if 16 bits can count them. */
  lemma AskedCovers(r: Request)
    ensures Asked(r).session == r.session
    ensures r.size <= 240 ==> Asked(r).packetLen == r.size && (r.count < 65536 ==> Asked(r).packetCount == r.count)
    ensures r.size > 240 && r.imageLen <= 240 * 65535 ==>
      var c := Asked(r).packetCount;
      Asked(r).packetLen == 240 && 240 * (c - 1) < r.imageLen <= 240 * c
  {}

  // ------------------------------------------------------------------
  // Why the assumptions are needed
  // ------------------------------------------------------------------

  /** HandleNmeIupTransfer takes any packet number: the counter stays the number of set flags exactly when
      the number is one of those flash is about. */
  lemma CountExactIffAnnounced(n: Node, p: nat, data: seq<byte>, left: seq<byte>)
    requires Inv(n) && Accepts(n, n.init.session, p) && p < CELLS && |data| >= n.init.packetLen
    ensures var n' := Acts(n, TransferActs(n, n.init.session, p, data, true, left));
      n'.rcvd == CountSet(n'.cells, n.base.packetCount) <==> 1 <= p <= n.base.packetCount
  {
    ActsUnfold(n, TransferActs(n, n.init.session, p, data, true, left));
    CountOfFlags(n.cells, n.base.packetCount, p);
    hide DataOk, NoneMissing;
  }

  /** Reading the persistent data twice in one power-up counts every flag twice: the counter is right
      exactly when no flag was set. */
  lemma RestoreOnlyOnce(n: Node)
    requires n.valid
    ensures var twice := Restore(PowerUp(n));
      && twice.rcvd == 2 * CountSet(n.cells, n.stored.packetCount)
      && (twice.rcvd == CountSet(n.cells, n.stored.packetCount) <==> CountSet(n.cells, n.stored.packetCount) == 0)
  {}

  // ------------------------------------------------------------------
  // The state the handlers update in place
  // ------------------------------------------------------------------

  class Updater {
    var valid: bool
    var stored: InitData
    var storedOk: bool
    const cells: array<byte>
    const part: array<byte>
    var init: InitData
    var rcvd: nat
    var ok: bool
    var due: bool
    ghost var base: InitData
    ghost var log: map<nat, Entry>

    ghost predicate Valid()
    {
      cells.Length == CELLS && cells != part
    }

    ghost function Model(): Node
      requires Valid()
      reads this, cells, part
    {
      RawNode.Node(valid, stored, storedOk, cells[..], part[..], init, rcvd, ok, due, base, log)
    }

    constructor (partitionSize: nat)
      ensures Valid() && fresh(cells) && fresh(part) && part.Length == partitionSize
      ensures Inv(Model())
    {
      valid, stored, storedOk, init, rcvd, ok, due := false, NO_INIT, false, NO_INIT, 0, false, false;
      base, log := NO_INIT, map[];
      cells := new byte[CELLS](_ => EEPROM_NOT_WRITTEN);
      part := new byte[partitionSize](_ => EEPROM_NOT_WRITTEN);
    }

    /** `HandleNmeIupInit` for a request of the right size. */
    method HandleInit(r: Request) returns (answer: InitResult)
      requires Valid()
      modifies this
      ensures Valid() && answer == Announce(old(Model()), r).1
      ensures Model() == Acts(old(Model()), Announce(old(Model()), r).0)
    {
      ghost var n := Model();
      ActsUnfold(n, Announce(n, r).0);
      if !r.imageOk { return WrongImage; }
      if r.imageLen > part.Length { return TooLarge; }
      var packetLen, packetCount := r.size, r.count % 65536;
      var largePacket := r.size > IUP_PACKET_SIZE_SUPPORTED;
      if largePacket {
        packetCount := r.imageLen / 240 % 65536;
        if r.imageLen % 240 != 0 { packetCount := (packetCount + 1) % 65536; }
        packetLen := IUP_PACKET_SIZE_SUPPORTED;
      }
      CeilingWraps(r.imageLen);
      init := Announced(r.session, packetLen, packetCount);
      if init.packetCount > FLAG_SLOTS { return CountTooHigh; }
      due := true;
      answer := Pending(largePacket);
    }

    /** Erases the first `count` bytes. */
    method Erase(mem: array<byte>, count: nat)
      requires count <= mem.Length
      modifies mem
      ensures mem[..] == Blank(count) + old(mem[count..])
    {
      var i := 0;
      while i < count
        invariant i <= count && forall k :: 0 <= k < mem.Length ==> mem[k] == if k < i then EEPROM_NOT_WRITTEN else old(mem[k])
      {
        mem[i] := EEPROM_NOT_WRITTEN;
        i := i + 1;
      }
    }

    /** A write into flash at an address relative to the partition; bytes outside it go elsewhere. */
    method WritePart(at: int, bytes: seq<byte>)
      modifies part
      ensures part[..] == Overwritten(old(part[..]), at, bytes)
    {
      var i := 0;
      while i < |bytes|
        invariant i <= |bytes|
        invariant forall k :: 0 <= k < part.Length ==> part[k] == if 0 <= k - at < i then bytes[k - at] else old(part[k])
      {
        if 0 <= at + i < part.Length { part[at + i] := bytes[i]; }
        i := i + 1;
      }
    }

    /** `InitUpdateProcess`, from the timer. */
    method InitUpdateProcess(eraseOk: bool) returns (done: bool)
      requires Valid()
      modifies this, cells, part
      ensures Valid() && done == eraseOk
      ensures Model() == Acts(old(Model()), BeginActs(eraseOk))
    {
      BeginResult(Model(), eraseOk);
      hide Acts, Act, Blank;
      rcvd, ok, due := 0, false, false;
      Erase(cells, FLAG_SLOTS + 1);
      valid, storedOk := false, false;
      base, log := init, map[];
      if !eraseOk { return false; }
      Erase(part, part.Length);
      valid, stored := true, init;
      done := true;
    }

    /** `HandleNmeIupTransfer` for a request long enough to carry data; `left` is what a failed write leaves. */
    method HandleTransfer(session: nat, packet: nat, data: seq<byte>, writeOk: bool, left: seq<byte>)
      requires Valid() && packet < CELLS && |data| >= init.packetLen
      modifies this, cells, part
      ensures Valid()
      ensures Model() == Acts(old(Model()), TransferActs(old(Model()), session, packet, data, writeOk, left))
    {
      ghost var n := Model();
      ActsUnfold(n, TransferActs(n, session, packet, data, writeOk, left));
      if session != init.session { return; }
      if ok { return; }
      if cells[packet] != EEPROM_NOT_WRITTEN { return; }
      var len: int := init.packetLen;
      var at := (packet - 1) * len;
      if packet > 0 { OffsetIsProduct(packet - 1, init.packetLen); }
      assert at == At(packet, init.packetLen);
      WritePart(at, if writeOk then data[..init.packetLen] else left);
      if writeOk {
        rcvd := rcvd + 1;
        cells[packet] := EEPROM_WRITTEN;
        log := log[packet := Entry(init.session, data[..init.packetLen])];
      }
    }

    /** `HandleNmeIupConfirm` */
    method HandleConfirm(session: nat) returns (r: Response)
      requires Valid()
      modifies this
      ensures Valid() && r == Confirm(old(Model()), session).1
      ensures Model() == Acts(old(Model()), Confirm(old(Model()), session).0)
    {
      ghost var n := Model();
      ActsUnfold(n, Confirm(n, session).0);
      if session != init.session { return Ignored; }
      if rcvd < 80 * init.packetCount / 100 { return NotViable; }
      if init.packetCount == rcvd {
        ok := true;
        storedOk := true;
        return Success;
      }
      var packets: seq<nat> := [];
      var k: nat := 0;
      ghost var all := Missing(cells[..], 0, init.packetCount, MAX_PACKET_COUNT_IN_CONFIRM_RESPONSE);
      while k < init.packetCount && |packets| < MAX_PACKET_COUNT_IN_CONFIRM_RESPONSE
        invariant k <= init.packetCount && |packets| <= MAX_PACKET_COUNT_IN_CONFIRM_RESPONSE
        invariant all == packets + Missing(cells[..], k, init.packetCount, MAX_PACKET_COUNT_IN_CONFIRM_RESPONSE - |packets|)
      {
        if cells[k + 1] == EEPROM_NOT_WRITTEN {
          packets := packets + [k + 1];
        }
        k := k + 1;
      }
      assert all == packets;
      r := if packets == [] then Success else Missed(packets);
    }

    /** `readIupPersistData` */
    method ReadPersistData()
      requires Valid()
      modifies this
      ensures Valid() && Model() == Restore(old(Model()))
    {
      if valid {
        init, ok, base := stored, storedOk, stored;
        var k: nat := 0;
        while k < init.packetCount
          invariant k <= init.packetCount && rcvd == old(rcvd) + CountSet(cells[..], k)
          invariant Model() == old(Model()).(init := old(stored), base := old(stored), ok := old(storedOk), rcvd := rcvd)
        {
          if cells[k + 1] != EEPROM_NOT_WRITTEN {
            rcvd := rcvd + 1;
          }
          k := k + 1;
        }
      }
    }
  }

  lemma BeginResult(n: Node, eraseOk: bool)
    ensures var x := n.(valid := false, storedOk := false, cells := Erased(n.cells), rcvd := 0, ok := false, due := false,
                        base := n.init, log := map[]);
      Acts(n, BeginActs(eraseOk)) == if eraseOk then x.(part := Blank(|n.part|), valid := true, stored := n.init) else x
  {
    ActsUnfold(n, BeginActs(eraseOk));
    hide Blank, Erased, Acts;
    var x := Act(Act(n, ResetRam), EraseMeta);
    assert Act(Act(x, ErasePart), WriteHeader) == x.(part := Blank(|n.part|), valid := true, stored := n.init);
  }

  /** Counting packets in 16 bits, one at a time. */
  lemma CeilingWraps(len: nat)
    ensures var q := len / 240 % 65536;
      (len / 240 + if len % 240 != 0 then 1 else 0) % 65536 == if len % 240 != 0 then (q + 1) % 65536 else q
  {}
}
