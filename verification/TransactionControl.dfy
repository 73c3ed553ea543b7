/** The transaction control sublayer of lcs_tcs.c: a bounded, aging table of (destination, last
    transaction number) pairs that keeps successive numbers to one destination different. */
module TransactionControl {
  import opened Bytes
  import opened Timers

  const TID_TABLE_SIZE := 10
  const MIN_TABLE_TIME_MS := 24000
  const ID_MAX := 6

  // ------------------------------------------------------------------
  // Data
  // ------------------------------------------------------------------

  /** A destination by address mode. Modes NewTrans does not know never match a table entry. */
  datatype Dest =
    | SubnetNode(subnet: byte, node: byte)
    | UniqueNodeId(uid: seq<byte>)
    | Group(groupId: byte)
    | Broadcast(broadcastSubnet: byte)
    | UnknownMode(mode: byte)

  /** A request with its domain looked up: the flex domain of the caller, or an entry of the domain table,
      which compares with nothing when it is invalid. */
  datatype RawRequest = Request(comparable: bool, len: nat, id: seq<byte>, dest: Dest)
  type Request = r: RawRequest | r.len <= ID_MAX && |r.id| == ID_MAX
    witness Request(true, 0, [0, 0, 0, 0, 0, 0], Group(0))

  datatype RawEntry = Entry(id: seq<byte>, len: nat, dest: Dest, timer: Timer, tid: nat)
  type Entry = e: RawEntry | e.len <= ID_MAX && |e.id| == ID_MAX
    witness Entry([0, 0, 0, 0, 0, 0], 0, Group(0), Timer(0, 0), 0)

  type Table = t: seq<Entry> | |t| == TID_TABLE_SIZE
    witness seq(10, _ => Entry([0, 0, 0, 0, 0, 0], 0, Group(0), Timer(0, 0), 0))

  /** Everything kept for one priority. */
  datatype RawSide = Side(inProgress: bool, transNum: nat, transId: nat, size: nat, tbl: Table)
  type Side = s: RawSide | s.size <= TID_TABLE_SIZE
    witness Side(false, 0, 0, 0, seq(10, _ => Entry([0, 0, 0, 0, 0, 0], 0, Group(0), Timer(0, 0), 0)))

  datatype Outcome = Started(num: nat) | TransactionInProgress | TransactionNotAvailable

  /** The name of a destination, independent of where it is stored. */
  datatype Key = Key(domain: seq<byte>, dest: Dest)

  function KeyOf(e: Entry): Key {
    Key(e.id[..e.len], e.dest)
  }

  function KeyOfRequest(r: Request): Key {
    Key(r.id[..r.len], r.dest)
  }

  predicate Matches(e: Entry, r: Request) {
    r.comparable && e.len == r.len && e.id[..r.len] == r.id[..r.len] && !r.dest.UnknownMode? && e.dest == r.dest
  }

  lemma MatchesIsSameKey(e: Entry, r: Request)
    requires r.comparable && !r.dest.UnknownMode?
    ensures Matches(e, r) <==> KeyOf(e) == KeyOfRequest(r)
  {
    if KeyOf(e) == KeyOfRequest(r) { assert |e.id[..e.len]| == e.len; }
  }

  // ------------------------------------------------------------------
  // One call of NewTrans, TransDone and the reset, on values
  // ------------------------------------------------------------------

  /** The first entry at or after `from` that matches, or the size of the table. */
  function Find(s: Side, r: Request, from: nat): (i: nat)
    requires from <= s.size
    ensures from <= i <= s.size
    ensures forall k :: from <= k < i ==> !Matches(s.tbl[k], r)
    ensures i < s.size ==> Matches(s.tbl[i], r)
    decreases s.size - from
  {
    if from == s.size || Matches(s.tbl[from], r) then from else Find(s, r, from + 1)
  }

  /** The first entry at or after `from` whose time is up, or the size of the table. */
  function FindOld(s: Side, now: nat, from: nat): (i: nat)
    requires from <= s.size
    ensures from <= i <= s.size
    ensures i < s.size ==> s.tbl[i].timer.Fires(Tick(now))
    decreases s.size - from
  {
    if from == s.size || s.tbl[from].timer.Fires(Tick(now)) then from else FindOld(s, now, from + 1)
  }

  /** The number after n: 15 wraps to 1, so 0 is used only after a reset. */
  function Next(n: nat): nat {
    if n + 1 == 16 then 1 else n + 1
  }

  /** The evicted entry is replaced with the last one. */
  function Evict(s: Side, i: nat): Side
    requires i < s.size
  {
    s.(size := s.size - 1, tbl := s.tbl[i := s.tbl[s.size - 1]])
  }

  /** Writes the new entry behind the table. The domain length goes to slot `i`, where the searches
      stopped; that is the new slot unless an entry other than the last was evicted. */
  function Insert(s: Side, i: nat, r: Request, now: nat): Side
    requires i <= s.size < TID_TABLE_SIZE
  {
    var slot := s.size;
    var t0 := s.tbl[slot := s.tbl[slot].(id := r.id[..r.len] + s.tbl[slot].id[r.len..])];
    var t1 := t0[i := t0[i].(len := r.len)];
    var t2 := t1[slot := t1[slot].(dest := r.dest, timer := t1[slot].timer.Set(Tick(now), MIN_TABLE_TIME_MS), tid := s.transId)];
    s.(tbl := t2, size := slot + 1, inProgress := true)
  }

  function Reuse(s: Side, i: nat, now: nat): Side
    requires i < s.size
  {
    var id := if s.tbl[i].tid == s.transId then Next(s.transId) else s.transId;
    s.(transId := id, transNum := id, inProgress := true,
       tbl := s.tbl[i := s.tbl[i].(tid := id, timer := s.tbl[i].timer.Set(Tick(now), MIN_TABLE_TIME_MS))])
  }

  function AfterNewTrans(s: Side, r: Request, now: nat): (Side, Outcome)
  {
    if s.inProgress then (s, TransactionInProgress)
    else
      var s := s.(transNum := s.transId);
      var i := Find(s, r, 0);
      if i < s.size then
        var s' := Reuse(s, i, now);
        (s', Started(s'.transId))
      else if s.size < TID_TABLE_SIZE then (Insert(s, s.size, r, now), Started(s.transId))
      else
        var j := FindOld(s, now, 0);
        if j == s.size then (s, TransactionNotAvailable)
        else (Insert(Evict(s, j), j, r, now), Started(s.transId))
  }

  function AfterTransDone(s: Side): Side {
    s.(inProgress := false, transId := Next(s.transId))
  }

  /** The table survives software resets and is emptied by power-up and external resets. */
  function AfterReset(s: Side, keepTable: bool): Side {
    s.(inProgress := false, transId := 0, size := if keepTable then s.size else 0)
  }

  // ------------------------------------------------------------------
  // Whole runs
  // ------------------------------------------------------------------

  datatype System = System(pri: Side, nonpri: Side) {
    function At(priority: bool): Side {
      if priority then pri else nonpri
    }

    function With(priority: bool, s: Side): System {
      if priority then this.(pri := s) else this.(nonpri := s)
    }
  }

  datatype Op =
    | New(priority: bool, request: Request, now: nat)
    | Done(donePriority: bool)
    | SublayerReset(keepTable: bool)

  function Step(sys: System, op: Op): System
  {
    match op
    case New(p, r, now) => sys.With(p, AfterNewTrans(sys.At(p), r, now).0)
    case Done(p) => sys.With(p, AfterTransDone(sys.At(p)))
    case SublayerReset(keep) => System(AfterReset(sys.pri, keep), AfterReset(sys.nonpri, keep))
  }

  /** The state after the first k actions of a run. */
  function StateAt(sys: System, ops: seq<Op>, k: nat): System
    requires k <= |ops|
  {
    if k == 0 then sys else Step(StateAt(sys, ops, k - 1), ops[k - 1])
  }

  /** What NewTrans answered at action k. */
  function Answer(sys: System, ops: seq<Op>, k: nat): Outcome
    requires k < |ops| && ops[k].New?
  {
    AfterNewTrans(StateAt(sys, ops, k).At(ops[k].priority), ops[k].request, ops[k].now).1
  }

  // ------------------------------------------------------------------
  // The invariant and when a call keeps it
  // ------------------------------------------------------------------

  /** Numbers are in 0..15 and the table names each destination at most once. */
  ghost predicate Inv(s: Side) {
    && s.transId <= 15
    && (forall i :: 0 <= i < s.size ==> s.tbl[i].tid <= 15)
    && (forall i, j :: 0 <= i < j < s.size && !s.tbl[i].dest.UnknownMode? ==> KeyOf(s.tbl[i]) != KeyOf(s.tbl[j]))
  }

  /** The two things a call relies on without checking them: the domain is in use (an invalid one
      matches nothing but is still entered), and when an entry other than the last has to be evicted,
      the last one has the same domain length as the new one (the length is stored in the wrong slot). */
  ghost predicate Sound(s: Side, r: Request, now: nat)
  {
    && r.comparable
    && !r.dest.UnknownMode?
    && LengthGoesRight(s, r, now)
  }

  ghost predicate LengthGoesRight(s: Side, r: Request, now: nat)
  {
    var j := FindOld(s, now, 0);
    Find(s, r, 0) == s.size == TID_TABLE_SIZE && j + 1 < s.size ==> s.tbl[s.size - 1].len == r.len
  }

  lemma FindIgnoresCounters(s: Side, s': Side, r: Request, now: nat, from: nat)
    requires s.tbl == s'.tbl && s.size == s'.size && from <= s.size
    ensures Find(s, r, from) == Find(s', r, from) && FindOld(s, now, from) == FindOld(s', now, from)
    decreases s.size - from
  {
    if from < s.size { FindIgnoresCounters(s, s', r, now, from + 1); }
  }

  /** Slot x remembers that `key` was last given `num`, at least until `deadline`. */
  ghost predicate Holds(e: Entry, key: Key, num: nat, deadline: nat) {
    KeyOf(e) == key && e.tid == num && e.timer.repeatTimeout == 0 && Awaits(e.timer, deadline)
  }

  ghost predicate Remembers(s: Side, key: Key, num: nat, deadline: nat) {
    exists x :: 0 <= x < s.size && Holds(s.tbl[x], key, num, deadline)
  }

  /** An eviction stores both domain lengths where they belong exactly when the evicted entry is the
      last one or the last one's length is the new one's: otherwise the two lengths change places. */
  lemma EvictionSwapsLengths(s: Side, j: nat, r: Request, now: nat)
    requires s.size == TID_TABLE_SIZE && j < s.size
    ensures var t, last := Insert(Evict(s, j), j, r, now).tbl, s.size - 1;
      && ((KeyOf(t[last]) == KeyOfRequest(r) && (j < last ==> t[j] == s.tbl[last]))
          <==> j == last || s.tbl[last].len == r.len)
      && (j < last ==> t[j].len == r.len && t[last].len == s.tbl[last].len)
  {
    var t, last := Insert(Evict(s, j), j, r, now).tbl, s.size - 1;
    assert t[last].id[..r.len] == r.id[..r.len];
    if KeyOf(t[last]) == KeyOfRequest(r) {
      assert |t[last].id[..t[last].len]| == |r.id[..r.len]|;
    }
  }

  lemma InsertRecords(s: Side, i: nat, r: Request, now: nat)
    requires i <= s.size < TID_TABLE_SIZE
    requires i < s.size ==> s.tbl[s.size].len == r.len && s.tbl[i].len == r.len
    ensures var s' := Insert(s, i, r, now);
      && s'.size == s.size + 1 && s'.transId == s.transId
      && (forall k :: 0 <= k < s.size ==> s'.tbl[k] == s.tbl[k])
      && Holds(s'.tbl[s.size], KeyOfRequest(r), s.transId, Deadline(now, MIN_TABLE_TIME_MS))
  {
    var s' := Insert(s, i, r, now);
    SetAwaits(s.tbl[s.size].timer, now, MIN_TABLE_TIME_MS);
    assert s'.tbl[s.size].id[..r.len] == r.id[..r.len];
  }

  /** The table in which a new entry is placed: unchanged, or with the evicted entry replaced. */
  lemma InsertKeepsInv(s: Side, i: nat, r: Request, now: nat)
    requires Inv(s) && i <= s.size < TID_TABLE_SIZE && !r.dest.UnknownMode?
    requires i < s.size ==> s.tbl[s.size].len == r.len && s.tbl[i].len == r.len
    requires forall k :: 0 <= k < s.size ==> KeyOf(s.tbl[k]) != KeyOfRequest(r)
    ensures Inv(Insert(s, i, r, now))
    ensures Remembers(Insert(s, i, r, now), KeyOfRequest(r), s.transId, Deadline(now, MIN_TABLE_TIME_MS))
  {
    InsertRecords(s, i, r, now);
    var s' := Insert(s, i, r, now);
    assert KeyOf(s'.tbl[s.size]) == KeyOfRequest(r);
  }

  lemma EvictKeepsInv(s: Side, j: nat)
    requires Inv(s) && j < s.size
    ensures Inv(Evict(s, j))
  {
    var s', last := Evict(s, j), s.size - 1;
    forall a, b | 0 <= a < b < s'.size && !s'.tbl[a].dest.UnknownMode?
      ensures KeyOf(s'.tbl[a]) != KeyOf(s'.tbl[b])
    {
      assert s'.tbl[a] == s.tbl[if a == j then last else a];
      assert s'.tbl[b] == s.tbl[if b == j then last else b];
    }
  }

  /** A successful call under `Sound` hands out a number in 0..15, keeps the table free of duplicates
      and remembers the number for 24 seconds. */
  lemma NewTransRecords(s: Side, r: Request, now: nat)
    requires Inv(s) && Sound(s, r, now)
    ensures var (s', out) := AfterNewTrans(s, r, now);
      && Inv(s')
      && (out.Started? ==>
            out.num <= 15 && Remembers(s', KeyOfRequest(r), out.num, Deadline(now, MIN_TABLE_TIME_MS)))
  {
    var (s', out) := AfterNewTrans(s, r, now);
    if out.Started? {
      var s0 := s.(transNum := s.transId);
      FindIgnoresCounters(s, s0, r, now, 0);
      var i := Find(s0, r, 0);
      if i < s0.size {
        SetAwaits(s0.tbl[i].timer, now, MIN_TABLE_TIME_MS);
        forall k | 0 <= k < s.size ensures KeyOf(s'.tbl[k]) == KeyOf(s.tbl[k]) {}
        MatchesIsSameKey(s.tbl[i], r);
        assert Holds(s'.tbl[i], KeyOfRequest(r), out.num, Deadline(now, MIN_TABLE_TIME_MS));
      } else {
        forall k | 0 <= k < s.size ensures KeyOf(s0.tbl[k]) != KeyOfRequest(r) {
          MatchesIsSameKey(s.tbl[k], r);
        }
        if s.size < TID_TABLE_SIZE {
          InsertKeepsInv(s0, s0.size, r, now);
        } else {
          var j := FindOld(s0, now, 0);
          EvictKeepsInv(s0, j);
          InsertKeepsInv(Evict(s0, j), j, r, now);
        }
      }
    }
  }

  lemma NotEvictedBefore(s: Side, now: nat, x: nat, deadline: nat)
    requires x < s.size && Awaits(s.tbl[x].timer, deadline)
    requires deadline - HALF < now < deadline
    ensures FindOld(s, now, 0) != x
  {
    FiresFromDeadline(s.tbl[x].timer, deadline, now);
  }

  /** Until its 24 seconds are over, what the table remembers about one destination survives every
      transaction to another one, evictions included. */
  lemma NewTransKeepsOthers(s: Side, r: Request, now: nat, key: Key, num: nat, deadline: nat)
    requires Inv(s) && Sound(s, r, now) && key != KeyOfRequest(r)
    requires Remembers(s, key, num, deadline) && deadline - HALF < now < deadline
    ensures Remembers(AfterNewTrans(s, r, now).0, key, num, deadline)
  {
    var (s', out) := AfterNewTrans(s, r, now);
    var x :| 0 <= x < s.size && Holds(s.tbl[x], key, num, deadline);
    if !out.Started? {
      assert Holds(s'.tbl[x], key, num, deadline);
    } else {
      var s0 := s.(transNum := s.transId);
      FindIgnoresCounters(s, s0, r, now, 0);
      var i := Find(s0, r, 0);
      if i < s0.size {
        MatchesIsSameKey(s.tbl[i], r);
        assert i != x;
        assert Holds(s'.tbl[x], key, num, deadline);
      } else if s.size < TID_TABLE_SIZE {
        InsertRecords(s0, s0.size, r, now);
        assert Holds(s'.tbl[x], key, num, deadline);
      } else {
        var j := FindOld(s0, now, 0);
        NotEvictedBefore(s0, now, x, deadline);
        var e := Evict(s0, j);
        InsertRecords(e, j, r, now);
        var x' := if x == s.size - 1 then j else x;
        assert e.tbl[x'] == s.tbl[x];
        assert Holds(s'.tbl[x'], key, num, deadline);
      }
    }
  }

  /** A destination the table remembers gets another number. */
  lemma NewTransDiffers(s: Side, r: Request, now: nat, num: nat, deadline: nat)
    requires Inv(s) && Sound(s, r, now)
    requires Remembers(s, KeyOfRequest(r), num, deadline)
    ensures AfterNewTrans(s, r, now).1.Started? ==> AfterNewTrans(s, r, now).1.num != num
  {
    var x :| 0 <= x < s.size && Holds(s.tbl[x], KeyOfRequest(r), num, deadline);
    var s0 := s.(transNum := s.transId);
    FindIgnoresCounters(s, s0, r, now, 0);
    var i := Find(s0, r, 0);
    MatchesIsSameKey(s.tbl[x], r);
    assert i <= x;
    MatchesIsSameKey(s.tbl[i], r);
    assert i == x;
  }

  // ------------------------------------------------------------------
  // The promise, over every run
  // ------------------------------------------------------------------

  ghost predicate SysInv(sys: System) {
    Inv(sys.pri) && Inv(sys.nonpri)
  }

  ghost predicate SoundAt(sys: System, ops: seq<Op>, k: nat)
    requires k < |ops|
  {
    SoundStep(StateAt(sys, ops, k), ops[k])
  }

  /** Every NewTrans of the run meets `Sound` in the state it finds. */
  ghost predicate SoundRun(sys: System, ops: seq<Op>)
  {
    forall k :: 0 <= k < |ops| ==> SoundAt(sys, ops, k)
  }

  ghost predicate TimeOrdered(ops: seq<Op>) {
    forall i, j :: 0 <= i < j < |ops| && ops[i].New? && ops[j].New? ==> ops[i].now <= ops[j].now
  }

  ghost predicate SoundStep(sys: System, op: Op)
  {
    op.New? ==> Sound(sys.At(op.priority), op.request, op.now)
  }

  lemma StepKeepsInv(sys: System, op: Op)
    requires SysInv(sys) && SoundStep(sys, op)
    ensures SysInv(Step(sys, op))
  {
    match op
    case New(p, r, now) => NewTransRecords(sys.At(p), r, now);
    case Done(p) =>
      assert AfterTransDone(sys.At(p)).tbl == sys.At(p).tbl;
    case SublayerReset(_) =>
  }

  /** One action that is not a transaction to `key` itself leaves what is remembered about it. */
  lemma StepRemembers(sys: System, op: Op, priority: bool, key: Key, num: nat, deadline: nat)
    requires SysInv(sys) && SoundStep(sys, op)
    requires Remembers(sys.At(priority), key, num, deadline)
    requires op.New? ==> deadline - HALF < op.now < deadline
    requires op.SublayerReset? ==> op.keepTable
    requires op.New? && op.priority == priority && KeyOfRequest(op.request) == key ==>
      !AfterNewTrans(sys.At(priority), op.request, op.now).1.Started?
    ensures Remembers(Step(sys, op).At(priority), key, num, deadline)
  {
    var s, s' := sys.At(priority), Step(sys, op).At(priority);
    if op.New? && op.priority == priority && KeyOfRequest(op.request) != key {
      NewTransKeepsOthers(s, op.request, op.now, key, num, deadline);
    } else {
      var x :| 0 <= x < s.size && Holds(s.tbl[x], key, num, deadline);
      assert Holds(s'.tbl[x], key, num, deadline);
    }
  }

  /** In every run numbers stay in 0..15 and no table ever names a destination twice. */
  lemma {:induction false} RunKeepsInv(sys: System, ops: seq<Op>, k: nat)
    requires SysInv(sys) && SoundRun(sys, ops) && k <= |ops|
    ensures SysInv(StateAt(sys, ops, k))
    ensures k < |ops| && ops[k].New? && Answer(sys, ops, k).Started? ==> Answer(sys, ops, k).num <= 15
  {
    hide Inv, Sound, AfterNewTrans;
    if k > 0 {
      RunKeepsInv(sys, ops, k - 1);
      assert SoundAt(sys, ops, k - 1);
      StepKeepsInv(StateAt(sys, ops, k - 1), ops[k - 1]);
    }
    if k < |ops| && ops[k].New? {
      assert SoundAt(sys, ops, k);
      NewTransRecords(StateAt(sys, ops, k).At(ops[k].priority), ops[k].request, ops[k].now);
    }
  }

  ghost predicate StartsAt(sys: System, ops: seq<Op>, k: nat, priority: bool, key: Key)
  {
    && k < |ops| && ops[k].New? && ops[k].priority == priority
    && KeyOfRequest(ops[k].request) == key
    && Answer(sys, ops, k).Started?
  }

  lemma StartRemembers(sys: System, ops: seq<Op>, i: nat, priority: bool, key: Key)
    requires SysInv(sys) && SoundRun(sys, ops) && StartsAt(sys, ops, i, priority, key)
    ensures Remembers(StateAt(sys, ops, i + 1).At(priority), key, Answer(sys, ops, i).num,
                      Deadline(ops[i].now, MIN_TABLE_TIME_MS))
  {
    hide Inv, Sound, AfterNewTrans, Remembers;
    RunKeepsInv(sys, ops, i);
    assert SoundAt(sys, ops, i);
    NewTransRecords(StateAt(sys, ops, i).At(priority), ops[i].request, ops[i].now);
  }

  /** Action m neither starts another transaction to `key`, nor empties the table, nor comes 24 seconds
      or more after action i. */
  ghost predicate InBetween(sys: System, ops: seq<Op>, i: nat, m: nat, priority: bool, key: Key)
    requires i < |ops| && ops[i].New? && m < |ops|
  {
    && !StartsAt(sys, ops, m, priority, key)
    && (ops[m].SublayerReset? ==> ops[m].keepTable)
    && (ops[m].New? ==> ops[i].now <= ops[m].now < ops[i].now + MIN_TABLE_TIME_MS)
  }

  /** Between the start of a transaction at action i and action k the number is still remembered. */
  lemma {:induction false} StillRemembered(sys: System, ops: seq<Op>, i: nat, k: nat, priority: bool, key: Key)
    requires SysInv(sys) && SoundRun(sys, ops) && i < k <= |ops|
    requires StartsAt(sys, ops, i, priority, key)
    requires forall m :: i < m < k ==> InBetween(sys, ops, i, m, priority, key)
    ensures Remembers(StateAt(sys, ops, k).At(priority), key, Answer(sys, ops, i).num,
                      Deadline(ops[i].now, MIN_TABLE_TIME_MS))
  {
    hide Inv, Sound, AfterNewTrans, Remembers, Step;
    if k == i + 1 {
      StartRemembers(sys, ops, i, priority, key);
    } else {
      StillRemembered(sys, ops, i, k - 1, priority, key);
      RunKeepsInv(sys, ops, k - 1);
      assert SoundAt(sys, ops, k - 1);
      assert InBetween(sys, ops, i, k - 1, priority, key);
      StepRemembers(StateAt(sys, ops, k - 1), ops[k - 1], priority, key, Answer(sys, ops, i).num,
                    Deadline(ops[i].now, MIN_TABLE_TIME_MS));
    }
  }

  /** The promise of the sublayer: in every run, two successive transactions of one priority to one
      destination that start less than 24 seconds apart get different numbers, whatever other
      destinations, evictions and software resets come between them. */
  lemma SuccessiveNumbersDiffer(sys: System, ops: seq<Op>, i: nat, j: nat, priority: bool, key: Key)
    requires SysInv(sys) && SoundRun(sys, ops) && TimeOrdered(ops) && i < j < |ops|
    requires StartsAt(sys, ops, i, priority, key) && StartsAt(sys, ops, j, priority, key)
    requires forall m :: i < m < j ==> !StartsAt(sys, ops, m, priority, key)
    requires forall m :: i < m < j && ops[m].SublayerReset? ==> ops[m].keepTable
    requires ops[j].now < ops[i].now + MIN_TABLE_TIME_MS
    ensures Answer(sys, ops, i).num != Answer(sys, ops, j).num
  {
    hide Inv, Sound, AfterNewTrans, Remembers, Step;
    forall m | i < m < j ensures InBetween(sys, ops, i, m, priority, key) {}
    StillRemembered(sys, ops, i, j, priority, key);
    RunKeepsInv(sys, ops, j);
    assert SoundAt(sys, ops, j);
    NewTransDiffers(StateAt(sys, ops, j).At(priority), ops[j].request, ops[j].now,
                    Answer(sys, ops, i).num, Deadline(ops[i].now, MIN_TABLE_TIME_MS));
  }

  /** The transaction in progress according to the history alone. */
  function Pending(sys: System, ops: seq<Op>, k: nat, priority: bool): (r: int)
    requires k <= |ops|
  {
    if k == 0 then -1
    else
      match ops[k - 1]
      case New(p, _, _) =>
        if p == priority && Answer(sys, ops, k - 1).Started? then Answer(sys, ops, k - 1).num
        else Pending(sys, ops, k - 1, priority)
      case Done(p) => if p == priority then -1 else Pending(sys, ops, k - 1, priority)
      case SublayerReset(_) => -1
  }

  /** `ValidateTrans` */
  predicate ValidateTrans(s: Side, num: nat) {
    s.inProgress && s.transNum == num
  }

  /** In every run ValidateTrans accepts exactly the number of the transaction in progress: the last
      one started and neither finished nor reset away. */
  lemma {:induction false} ValidatesWhatIsPending(sys: System, ops: seq<Op>, k: nat, priority: bool, num: nat)
    requires !sys.pri.inProgress && !sys.nonpri.inProgress && k <= |ops|
    ensures ValidateTrans(StateAt(sys, ops, k).At(priority), num) <==> Pending(sys, ops, k, priority) == num
    ensures !StateAt(sys, ops, k).At(priority).inProgress <==> Pending(sys, ops, k, priority) == -1
  {
    if k > 0 {
      ValidatesWhatIsPending(sys, ops, k - 1, priority, num);
    }
  }

  // ------------------------------------------------------------------
  // Why `Sound` is needed
  // ------------------------------------------------------------------

  /** The destination is in the table, in an entry that this call does not evict. */
  ghost predicate StaysInTable(s: Side, r: Request, now: nat) {
    exists k :: 0 <= k < s.size && !(s.size == TID_TABLE_SIZE && k == FindOld(s, now, 0)) && KeyOf(s.tbl[k]) == KeyOfRequest(r)
  }

  lemma IncomparableFindsNothing(s: Side, r: Request, from: nat)
    requires !r.comparable && from <= s.size
    ensures Find(s, r, from) == s.size
    decreases s.size - from
  {
    if from < s.size { IncomparableFindsNothing(s, r, from + 1); }
  }

  /** A call for a domain that is not in use keeps the table free of duplicates exactly when the destination
      is not in an entry that stays. */
  lemma InvalidDomainIff(s: Side, r: Request, now: nat)
    requires Inv(s) && !s.inProgress && !r.dest.UnknownMode? && !r.comparable && LengthGoesRight(s, r, now)
    requires AfterNewTrans(s, r, now).1.Started?
    ensures Inv(AfterNewTrans(s, r, now).0) <==> !StaysInTable(s, r, now)
  {
    var s0, j := s.(transNum := s.transId), FindOld(s, now, 0);
    FindIgnoresCounters(s, s0, r, now, 0);
    IncomparableFindsNothing(s, r, 0);
    var full := s.size == TID_TABLE_SIZE;
    var s1, i := if full then Evict(s0, j) else s0, if full then j else s0.size;
    if full { EvictKeepsInv(s0, j); }
    InsertRecords(s1, i, r, now);
    var s' := AfterNewTrans(s, r, now).0;
    assert s' == Insert(s1, i, r, now);
    hide Insert, AfterNewTrans, Find;
    if StaysInTable(s, r, now) {
      var k :| 0 <= k < s.size && !(full && k == j) && KeyOf(s.tbl[k]) == KeyOfRequest(r);
      var k' := if full && k == s.size - 1 then j else k;
      assert s'.tbl[k'] == s1.tbl[k'] == s.tbl[k] && KeyOf(s'.tbl[s1.size]) == KeyOfRequest(r);
    } else {
      forall k | 0 <= k < s1.size ensures KeyOf(s1.tbl[k]) != KeyOfRequest(r) {
        assert s1.tbl[k] == s.tbl[if full && k == j then s.size - 1 else k];
      }
      InsertKeepsInv(s1, i, r, now);
    }
  }

  /** A call whose domain lengths go where they belong keeps the table free of duplicates exactly when its
      domain is in use, or it starts nothing, or its destination is not in an entry that stays. */
  lemma NoDuplicateIff(s: Side, r: Request, now: nat)
    requires Inv(s) && !s.inProgress && !r.dest.UnknownMode? && LengthGoesRight(s, r, now)
    ensures Inv(AfterNewTrans(s, r, now).0) <==>
      r.comparable || !AfterNewTrans(s, r, now).1.Started? || !StaysInTable(s, r, now)
  {
    if r.comparable {
      NewTransRecords(s, r, now);
    } else if AfterNewTrans(s, r, now).1.Started? {
      InvalidDomainIff(s, r, now);
    }
  }

  /** Exactly when a call starts a transaction: none is in progress, and the destination is in the table, or there
      is a free entry, or one whose time is up. Otherwise the answer says why, and nothing is recorded. */
  lemma StartsIff(s: Side, r: Request, now: nat)
    ensures var (s', out) := AfterNewTrans(s, r, now);
      var known := exists k :: 0 <= k < s.size && Matches(s.tbl[k], r);
      var aged := exists k :: 0 <= k < s.size && s.tbl[k].timer.Fires(Tick(now));
      && (out == TransactionInProgress <==> s.inProgress)
      && (out.Started? <==> !s.inProgress && (known || s.size < TID_TABLE_SIZE || aged))
      && (out.Started? ==> s'.inProgress && s'.transNum == out.num)
      && (!out.Started? ==> s' == if s.inProgress then s else s.(transNum := s.transId))
  {
    var s0 := s.(transNum := s.transId);
    OldIsFound(s0, now, 0);
    hide Matches;
  }

  lemma {:induction false} OldIsFound(s: Side, now: nat, from: nat)
    requires from <= s.size
    ensures FindOld(s, now, from) < s.size <==> exists k :: from <= k < s.size && s.tbl[k].timer.Fires(Tick(now))
    decreases s.size - from
  {
    if from < s.size { OldIsFound(s, now, from + 1); }
  }

  // ------------------------------------------------------------------
  // The counter
  // ------------------------------------------------------------------

  /** m steps on from n: 1 to 15 over and over; 0 is only where it starts. */
  function Circle(n: nat, m: nat): nat {
    if m == 0 then n else (n + m - 1) % 15 + 1
  }

  /** A transaction to a destination whose last number is the one that is next. */
  predicate Bumps(s: Side, r: Request) {
    !s.inProgress && Find(s, r, 0) < s.size && s.tbl[Find(s, r, 0)].tid == s.transId
  }

  /** Where the counter of a priority began, 0 after the last reset, and the steps since: one for every transaction
      that was ended and one for every number that was skipped because the destination had it last. */
  function Steps(sys: System, ops: seq<Op>, k: nat, priority: bool): (nat, nat)
    requires k <= |ops|
  {
    if k == 0 then (sys.At(priority).transId, 0)
    else
      var (n, m) := Steps(sys, ops, k - 1, priority);
      match ops[k - 1]
      case New(p, r, _) => (n, if p == priority && Bumps(StateAt(sys, ops, k - 1).At(p), r) then m + 1 else m)
      case Done(p) => (n, if p == priority then m + 1 else m)
      case SublayerReset(_) => (0, 0)
  }

  lemma CircleStep(n: nat, m: nat)
    requires n <= 15
    ensures Circle(n, m) <= 15 && Circle(n, m + 1) == Next(Circle(n, m))
  {}

  lemma NewTransSteps(s: Side, r: Request, now: nat)
    ensures AfterNewTrans(s, r, now).0.transId == if Bumps(s, r) then Next(s.transId) else s.transId
    ensures AfterNewTrans(s, r, now).1.Started? ==> AfterNewTrans(s, r, now).1.num == AfterNewTrans(s, r, now).0.transId
  {
    FindIgnoresCounters(s, s.(transNum := s.transId), r, now, 0);
    hide Find, FindOld;
  }

  /** Over every run the numbers of a priority go round, one step for every transaction ended and one for every
      number skipped, and a transaction is given the number that the counter then has. */
  lemma {:induction false} NumbersGoRound(sys: System, ops: seq<Op>, k: nat, priority: bool)
    requires k <= |ops| && sys.At(priority).transId <= 15
    ensures var (n, m) := Steps(sys, ops, k, priority);
      n <= 15 && StateAt(sys, ops, k).At(priority).transId == Circle(n, m)
    ensures k > 0 && ops[k - 1].New? && ops[k - 1].priority == priority && Answer(sys, ops, k - 1).Started? ==>
      var (n, m) := Steps(sys, ops, k, priority);
      Answer(sys, ops, k - 1).num == Circle(n, m)
    decreases k
  {
    if k > 0 {
      NumbersGoRound(sys, ops, k - 1, priority);
      var (n, m) := Steps(sys, ops, k - 1, priority);
      CircleStep(n, m);
      match ops[k - 1]
      case New(p, r, now) => if p == priority { NewTransSteps(StateAt(sys, ops, k - 1).At(p), r, now); }
        hide Circle, Next, Bumps, AfterNewTrans;
      case Done(p) => hide Circle, Next;
      case SublayerReset(_) =>
    }
  }

  /** After a power-up or an external reset nothing is remembered; a software reset forgets nothing. */
  lemma ResetForgets(s: Side, keepTable: bool, key: Key, num: nat, deadline: nat)
    ensures Remembers(AfterReset(s, keepTable), key, num, deadline) <==> keepTable && Remembers(s, key, num, deadline)
    ensures AfterReset(s, keepTable).transId == 0 && !AfterReset(s, keepTable).inProgress
  {
    hide Holds;
    if keepTable && Remembers(s, key, num, deadline) {
      var x :| 0 <= x < s.size && Holds(s.tbl[x], key, num, deadline);
      assert Holds(AfterReset(s, keepTable).tbl[x], key, num, deadline);
    }
    if Remembers(AfterReset(s, keepTable), key, num, deadline) && keepTable {
      var x :| 0 <= x < s.size && Holds(AfterReset(s, keepTable).tbl[x], key, num, deadline);
      assert Holds(s.tbl[x], key, num, deadline);
    }
  }

  // ------------------------------------------------------------------
  // One common domain length is enough
  // ------------------------------------------------------------------

  ghost predicate OneLength(s: Side, len: nat) {
    forall k :: 0 <= k < s.size ==> s.tbl[k].len == len
  }

  /** Every request names a domain in use, of this length, by a known address mode. */
  ghost predicate PlainRequest(op: Op, len: nat) {
    op.New? ==> op.request.comparable && !op.request.dest.UnknownMode? && op.request.len == len
  }

  lemma StepKeepsLength(sys: System, op: Op, len: nat)
    requires OneLength(sys.pri, len) && OneLength(sys.nonpri, len) && PlainRequest(op, len)
    ensures OneLength(Step(sys, op).pri, len) && OneLength(Step(sys, op).nonpri, len)
    ensures SoundStep(sys, op)
  {}

  lemma {:induction false} LengthOverRun(sys: System, ops: seq<Op>, len: nat, k: nat)
    requires OneLength(sys.pri, len) && OneLength(sys.nonpri, len) && k <= |ops|
    requires forall i :: 0 <= i < |ops| ==> PlainRequest(ops[i], len)
    ensures OneLength(StateAt(sys, ops, k).pri, len) && OneLength(StateAt(sys, ops, k).nonpri, len)
  {
    if k > 0 {
      LengthOverRun(sys, ops, len, k - 1);
      hide Step, OneLength;
      StepKeepsLength(StateAt(sys, ops, k - 1), ops[k - 1], len);
    }
  }

  /** If all requests name valid domains of one length, and the tables started with no other, every call of
      a run meets `Sound`. */
  lemma OneLengthIsSound(sys: System, ops: seq<Op>, len: nat)
    requires OneLength(sys.pri, len) && OneLength(sys.nonpri, len)
    requires forall i :: 0 <= i < |ops| ==> PlainRequest(ops[i], len)
    ensures SoundRun(sys, ops)
  {
    forall k | 0 <= k < |ops| ensures SoundAt(sys, ops, k) {
      LengthOverRun(sys, ops, len, k);
      hide StateAt, OneLength, Step;
      StepKeepsLength(StateAt(sys, ops, k), ops[k], len);
    }
  }

  /** So from empty tables, a node whose domains are valid and of one length gives successive transactions
      of one priority to one destination, less than 24 seconds apart, different numbers. */
  lemma OneLengthNumbersDiffer(ops: seq<Op>, len: nat, start: System, i: nat, j: nat, priority: bool, key: Key)
    requires start.pri.size == 0 && start.nonpri.size == 0 && start.pri.transId <= 15 && start.nonpri.transId <= 15
    requires forall k :: 0 <= k < |ops| ==> PlainRequest(ops[k], len)
    requires TimeOrdered(ops) && i < j < |ops|
    requires StartsAt(start, ops, i, priority, key) && StartsAt(start, ops, j, priority, key)
    requires forall m :: i < m < j ==> !StartsAt(start, ops, m, priority, key)
    requires forall m :: i < m < j && ops[m].SublayerReset? ==> ops[m].keepTable
    requires ops[j].now < ops[i].now + MIN_TABLE_TIME_MS
    ensures Answer(start, ops, i).num != Answer(start, ops, j).num
  {
    OneLengthIsSound(start, ops, len);
    SuccessiveNumbersDiffer(start, ops, i, j, priority, key);
  }

  // ------------------------------------------------------------------
  // A run that shows what goes wrong otherwise
  // ------------------------------------------------------------------

  /** A full table of one-byte domains whose times are all up. */
  function FullTable(): Table {
    seq(10, i requires 0 <= i < 10 => Entry([1, 0, 0, 0, 0, 0], 1, Group(i), Timer(1, 0), 5))
  }

  function ThreeByteRequest(): Request {
    Request(true, 3, [9, 9, 9, 0, 0, 0], Group(100))
  }

  /** A full table, idle, in which slot 0 can be evicted and nothing matches the request. */
  ghost predicate Stale(s: Side) {
    && !s.inProgress && s.transId == 0 && s.size == 10
    && s.tbl[0].id[0] == 1 && s.tbl[0].timer == Timer(1, 0)
    && forall k :: 0 < k < 10 ==> s.tbl[k].len == 1
  }

  lemma StaleStarts(s: Side, now: nat)
    requires Stale(s) && 1 <= now < HALF
    ensures AfterNewTrans(s, ThreeByteRequest(), now)
         == (Insert(Evict(s.(transNum := 0), 0), 0, ThreeByteRequest(), now), Started(0))
  {
    var r, s0 := ThreeByteRequest(), s.(transNum := 0);
    forall k | 0 <= k < 10 ensures !Matches(s.tbl[k], r) {
      if k == 0 { assert s.tbl[0].id[..3][0] == 1 && r.id[..3][0] == 9; }
    }
    assert Find(s0, r, 0) == 10;
    assert FindOld(s0, now, 0) == 0;
  }

  lemma StaleStaysStale(s: Side, now: nat)
    requires Stale(s) && s.tbl[9].id[0] == 1 && s.tbl[9].timer == Timer(1, 0) && 1 <= now < HALF
    ensures Stale(AfterReset(AfterTransDone(AfterNewTrans(s, ThreeByteRequest(), now).0), true))
  {
    StaleStarts(s, now);
  }

  /** Why one common domain length (or no eviction) is needed: with a full table of one-byte domains,
      a transaction to a three-byte domain is entered with the wrong length, so that after a software
      reset, one millisecond later, the same destination gets the same number again. */
  lemma WrongLengthRepeatsNumber()
    ensures var sys := System(Side(false, 0, 0, 10, FullTable()), Side(false, 0, 0, 10, FullTable()));
      var r := ThreeByteRequest();
      var ops := [New(false, r, 10), Done(false), SublayerReset(true), New(false, r, 11)];
      && SysInv(sys)
      && StartsAt(sys, ops, 0, false, KeyOfRequest(r)) && StartsAt(sys, ops, 3, false, KeyOfRequest(r))
      && Answer(sys, ops, 0) == Answer(sys, ops, 3)
  {
    hide Insert, Evict, AfterNewTrans;
    var s0 := Side(false, 0, 0, 10, FullTable());
    var sys, r := System(s0, s0), ThreeByteRequest();
    var ops := [New(false, r, 10), Done(false), SublayerReset(true), New(false, r, 11)];
    assert Inv(s0) by {
      forall i, j | 0 <= i < j < 10 ensures KeyOf(s0.tbl[i]) != KeyOf(s0.tbl[j]) {
        assert s0.tbl[i].dest == Group(i) && s0.tbl[j].dest == Group(j);
      }
    }
    var s1 := AfterNewTrans(s0, r, 10).0;
    var s3 := AfterReset(AfterTransDone(s1), true);
    assert StateAt(sys, ops, 0) == sys;
    assert StateAt(sys, ops, 1).nonpri == s1;
    assert StateAt(sys, ops, 2).nonpri == AfterTransDone(s1);
    assert StateAt(sys, ops, 3).nonpri == s3;
    StaleStarts(s0, 10);
    StaleStaysStale(s0, 10);
    StaleStarts(s3, 11);
  }

  // ------------------------------------------------------------------
  // The state the sublayer updates in place
  // ------------------------------------------------------------------

  class TransSide {
    var inProgress: bool
    var transNum: nat
    var transId: nat
    const tbl: array<Entry>
    var tblSize: nat

    ghost predicate Valid()
      reads this
    {
      tbl.Length == TID_TABLE_SIZE && tblSize <= TID_TABLE_SIZE
    }

    ghost function Model(): Side
      requires Valid()
      reads this, tbl
    {
      Side(inProgress, transNum, transId, tblSize, tbl[..])
    }

    constructor ()
      ensures Valid() && fresh(tbl)
      ensures !inProgress && transId == 0 && tblSize == 0
    {
      tbl := new Entry[TID_TABLE_SIZE](_ => Entry([0, 0, 0, 0, 0, 0], 0, Group(0), Timer(0, 0), 0));
      inProgress, transNum, transId, tblSize := false, 0, 0, 0;
    }

    /** The search loop of NewTrans. */
    method Search(r: Request) returns (i: nat)
      requires Valid()
      ensures i == Find(Model(), r, 0)
    {
      i := 0;
      while i < tblSize && !Matches(tbl[i], r)
        invariant i <= tblSize && Find(Model(), r, 0) == Find(Model(), r, i)
      {
        i := i + 1;
      }
    }

    /** The loop that looks for an entry whose time is up. */
    method SearchOld(now: nat) returns (i: nat)
      requires Valid()
      ensures i == FindOld(Model(), now, 0)
    {
      i := 0;
      while i < tblSize && !tbl[i].timer.Fires(Tick(now))
        invariant i <= tblSize && FindOld(Model(), now, 0) == FindOld(Model(), now, i)
      {
        i := i + 1;
      }
    }

    /** The last part of NewTrans, writing field by field as the source does. */
    method AddEntry(i: nat, r: Request, now: nat)
      requires Valid() && i <= tblSize < TID_TABLE_SIZE
      modifies this`tblSize, this`inProgress, tbl
      ensures Valid() && Model() == Insert(old(Model()), i, r, now)
    {
      ghost var before := tbl[..];
      tbl[tblSize] := tbl[tblSize].(id := r.id[..r.len] + tbl[tblSize].id[r.len..]);
      tbl[i] := tbl[i].(len := r.len);
      tbl[tblSize] := tbl[tblSize].(dest := r.dest);
      tbl[tblSize] := tbl[tblSize].(timer := tbl[tblSize].timer.Set(Tick(now), MIN_TABLE_TIME_MS));
      tbl[tblSize] := tbl[tblSize].(tid := transId);
      tblSize := tblSize + 1;
      inProgress := true;
      assert tbl[..] == Insert(old(Model()), i, r, now).tbl;
    }

    /** `NewTrans` for the priority this side keeps. */
    method NewTrans(r: Request, now: nat) returns (out: Outcome)
      requires Valid()
      modifies this, tbl
      ensures Valid() && (Model(), out) == AfterNewTrans(old(Model()), r, now)
    {
      if inProgress { return TransactionInProgress; }
      transNum := transId;
      ghost var s := Model();
      var i := Search(r);
      if i < tblSize {
        if tbl[i].tid == transId {
          transId := transId + 1;
          if transId == 16 { transId := 1; }
          transNum := transId;
        }
        tbl[i] := tbl[i].(tid := transId);
        tbl[i] := tbl[i].(timer := tbl[i].timer.Set(Tick(now), MIN_TABLE_TIME_MS));
        inProgress := true;
        assert tbl[..] == Reuse(s, i, now).tbl;
        return Started(transId);
      }
      if tblSize == TID_TABLE_SIZE {
        i := SearchOld(now);
        if i == tblSize { return TransactionNotAvailable; }
        tblSize := tblSize - 1;
        tbl[i] := tbl[tblSize];
        assert Model() == Evict(s, i);
      }
      AddEntry(i, r, now);
      out := Started(transId);
    }

    /** `TransDone` */
    method TransDone()
      requires Valid()
      modifies this
      ensures Valid() && Model() == AfterTransDone(old(Model()))
    {
      inProgress := false;
      transId := transId + 1;
      if transId == 16 { transId := 1; }
    }

    /** `TransactionControlSublayerReset`, one priority of it. */
    method Reset(keepTable: bool)
      requires Valid()
      modifies this
      ensures Valid() && Model() == AfterReset(old(Model()), keepTable)
    {
      transId := 0;
      inProgress := false;
      if !keepTable { tblSize := 0; }
    }
  }
}
