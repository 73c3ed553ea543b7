/** The output scheduler for network variables of lcs_app.c: groups of indices closed by -1 in a small
    queue, one message in flight, and one completion event per group. */
module NvScheduler {
  import opened SlotQueue

  const NV_ALIAS_TABLE_SIZE := 254
  const MAX_NV_OUT := 5

  // ------------------------------------------------------------------
  // Tables and tags
  // ------------------------------------------------------------------

  /** The parts of an NV configuration entry and of its address table entry that scheduling looks at. */
  datatype Nv = Nv(output: bool, addressed: bool, turnaround: bool)

  datatype ArrayEntry = ArrayEntry(nvIndex: int, dim: int)

  datatype RawTables = Tables(tableSize: nat, nvs: seq<Nv>, aliasPrimary: seq<int>, arrays: seq<ArrayEntry>)
  type Tables = t: RawTables | t.tableSize <= 254 && |t.nvs| == t.tableSize + NV_ALIAS_TABLE_SIZE
                               && |t.aliasPrimary| == NV_ALIAS_TABLE_SIZE
    witness Tables(0, seq(254, _ => Nv(false, false, false)), seq(254, _ => -1), [])

  /** `GetPrimaryIndex` */
  function PrimaryOf(t: Tables, index: int): (p: int)
    ensures -1 <= p && (p >= 0 ==> 0 <= index < |t.nvs|) && (p >= 0 ==> p < t.tableSize)
  {
    if index < 0 || index >= |t.nvs| then -1
    else if index < t.tableSize then index
    else
      var p := t.aliasPrimary[index - t.tableSize];
      if p < 0 || p >= t.tableSize then -1 else p
  }

  /** `IsNVBound` on one index: a table entry that leads somewhere. */
  predicate Leads(n: Nv) {
    n.addressed || n.turnaround
  }

  predicate IsBound(t: Tables, p: nat)
    requires p < t.tableSize
  {
    Leads(t.nvs[p]) ||
    exists j :: t.tableSize <= j < |t.nvs| && PrimaryOf(t, j) == p && Leads(t.nvs[j])
  }

  /** The base index of the array a primary index belongs to, searching from entry k on (`IsArrayNV`). */
  function BaseOf(t: Tables, index: int, k: nat): int
    requires k <= |t.arrays|
    decreases |t.arrays| - k
  {
    if index < 0 || index >= t.tableSize || k == |t.arrays| then index
    else
      var a := t.arrays[k];
      if a.nvIndex <= index < a.nvIndex + a.dim then a.nvIndex else BaseOf(t, index, k + 1)
  }

  const NV_UPDATE_LAST_TAG_VALUE := 0xE000

  /** `GET_NV_UPDATE_TAG`: bits 15 and 14 over a 13-bit index. */
  function UpdateTag(index: nat): nat
    requires index < 0x2000
  {
    0xC000 + index
  }

  /** `NV_LAST_TAG`: bits 15 and 13. */
  predicate IsLastTag(tag: nat) {
    tag / 0x8000 % 2 == 1 && tag / 0x2000 % 2 == 1
  }

  /** `NV_UPDATE_TAG`: bits 15 and 14. */
  predicate IsUpdateTag(tag: nat) {
    tag / 0x8000 % 2 == 1 && tag / 0x4000 % 2 == 1
  }

  /** `NV_INDEX_OF_TAG` */
  function IndexOfTag(tag: nat): nat {
    tag % 0x2000
  }

  /** The tag of an update names its index, is not mistaken for the end of a group, and the other way
      round. */
  lemma TagsRoundTrip(index: nat)
    requires index < 0x2000
    ensures IndexOfTag(UpdateTag(index)) == index && IsUpdateTag(UpdateTag(index)) && !IsLastTag(UpdateTag(index))
    ensures IsLastTag(NV_UPDATE_LAST_TAG_VALUE) && IsUpdateTag(NV_UPDATE_LAST_TAG_VALUE)
  {}

  // ------------------------------------------------------------------
  // The scheduler state
  // ------------------------------------------------------------------

  datatype Status = NoError | InvalidOperation | PropagateFailure

  /** `IzotDatapointUpdateCompleted(base, status)` with `gp->nvArrayIndex` as it is at the call. */
  datatype Event = UpdateCompleted(base: int, arrayIndex: int, status: Status)

  /** The queue, the three scheduler variables, and the tags of the messages handed to the lower layers
      for which no completion has come back yet. */
  datatype Sched = Sched(q: Fifo<int>, canSchedule: bool, nvOutIndex: int, failed: bool, outstanding: seq<nat>)

  function Completed(t: Tables, primary: int, status: Status): Event {
    var base := BaseOf(t, primary, 0);
    UpdateCompleted(base, primary - base, status)
  }

  /** The alias indices from j on that an update of primary p also goes to. */
  function EligibleAliases(t: Tables, p: int, j: nat): seq<int>
    requires t.tableSize <= j <= |t.nvs|
    decreases |t.nvs| - j
  {
    if j == |t.nvs| then []
    else (if PrimaryOf(t, j) == p && t.nvs[j].output then [j] else []) + EligibleAliases(t, p, j + 1)
  }

  /** Everything an update of primary p goes to. */
  function Eligible(t: Tables, p: nat): seq<int>
    requires p < t.tableSize
  {
    (if t.nvs[p].output then [p as int] else []) + EligibleAliases(t, p, t.tableSize)
  }

  function Space(q: Fifo<int>): int {
    q.capacity - |q.entries|
  }

  function Take(s: seq<int>, n: int): seq<int> {
    if n <= 0 then [] else if n >= |s| then s else s[..n]
  }

  /** `PropagateThisPrimary`: as many of the indices as leave one slot, then the end mark. */
  function AfterPropagate(t: Tables, s: Sched, p: nat): (Sched, seq<Event>)
    requires p < t.tableSize
  {
    if !IsBound(t, p) then (s, [Completed(t, p, NoError)])
    else
      var members := Take(Eligible(t, p), Space(s.q) - 1);
      if members == [] then (s, [Completed(t, p, PropagateFailure)])
      else (s.(q := s.q.(entries := s.q.entries + members).Write(-1)), [])
  }

  /** What SendVar finds around it: the node state, whether the address table entry of the index is in
      use, the fill of the queue the message goes to, and whether the value fits and its address can be
      converted. */
  datatype Surroundings = Surroundings(unconfigured: bool, turnaroundOnly: bool, full: bool, room: bool, fits: bool)

  /** `SendVar` */
  function AfterSend(t: Tables, s: Sched, e: Surroundings): Sched {
    if !s.canSchedule || s.q.entries == [] || e.unconfigured then s
    else
      var index := s.q.entries[0];
      if index == -1 then
        if e.full then s
        else s.(canSchedule := false, q := s.q.DropHead(),
                outstanding := if e.room then s.outstanding + [NV_UPDATE_LAST_TAG_VALUE] else s.outstanding)
      else if e.turnaroundOnly then s.(nvOutIndex := PrimaryOf(t, index), q := s.q.DropHead())
      else if e.full then s
      else
        var sent := e.fits && e.room && PrimaryOf(t, index) >= 0;
        s.(canSchedule := false, q := s.q.DropHead(),
           outstanding := if sent then s.outstanding + [UpdateTag(PrimaryOf(t, index))] else s.outstanding)
  }

  /** `HandleMsgCompletion` for the completion of the i-th outstanding message. */
  function AfterCompletion(t: Tables, s: Sched, i: nat, success: bool, appRuns: bool): (Sched, seq<Event>)
    requires i < |s.outstanding|
  {
    var tag := s.outstanding[i];
    var s := s.(outstanding := s.outstanding[..i] + s.outstanding[i + 1..]);
    if IsLastTag(tag) then
      (s.(failed := false, canSchedule := true),
       if appRuns then [Completed(t, s.nvOutIndex, if s.failed then InvalidOperation else NoError)] else [])
    else
      (s.(nvOutIndex := IndexOfTag(tag), failed := s.failed || !success, canSchedule := true), [])
  }

  // ------------------------------------------------------------------
  // What the scheduler is meant to do: a line of groups
  // ------------------------------------------------------------------

  /** The update of one primary: the indices it went to, those still to be sent, the outcomes that have
      come back, and how many indices stayed inside the node. */
  datatype Group = Group(primary: nat, members: seq<int>, todo: seq<int>, outcomes: seq<bool>, local: nat)

  datatype Flight = Nothing | Update | EndOfGroup

  /** Groups are served one after the other, the first one in progress. */
  datatype Line = Line(groups: seq<Group>, flight: Flight)

  datatype Op =
    | Propagate(primary: nat)
    | Send(around: Surroundings)
    | Complete(success: bool)

  function LineSend(l: Line, e: Surroundings): Line {
    if l.flight != Nothing || l.groups == [] || e.unconfigured then l
    else
      var g := l.groups[0];
      if g.todo == [] then (if e.full then l else l.(flight := EndOfGroup))
      else if e.turnaroundOnly then l.(groups := l.groups[0 := g.(todo := g.todo[1..], local := g.local + 1)])
      else if e.full then l
      else Line(l.groups[0 := g.(todo := g.todo[1..])], Update)
  }

  /** What there is to report: a finished group with its primary, its indices, the outcomes of its messages and
      the indices that needed none; or a propagation of which there is nothing to send. */
  datatype Finished =
    | Finished(primary: nat, members: seq<int>, outcomes: seq<bool>, local: nat)
    | NotBound(primary: nat)
    | NoneSent(primary: nat)

  function LineComplete(l: Line, success: bool): (Line, seq<Finished>) {
    if l.groups == [] then (l, [])
    else
      var g := l.groups[0];
      match l.flight
      case Nothing => (l, [])
      case Update => (Line(l.groups[0 := g.(outcomes := g.outcomes + [success])], Nothing), [])
      case EndOfGroup => (Line(l.groups[1..], Nothing), [Finished(g.primary, g.members, g.outcomes, g.local)])
  }

  function LineStep(t: Tables, l: Line, op: Op): (Line, seq<Finished>) {
    match op
    case Propagate(p) =>
      if p >= t.tableSize then (l, [])
      else if !IsBound(t, p) then (l, [NotBound(p)])
      else if Eligible(t, p) == [] then (l, [NoneSent(p)])
      else (l.(groups := l.groups + [Group(p, Eligible(t, p), Eligible(t, p), [], 0)]), [])
    case Send(e) => (LineSend(l, e), [])
    case Complete(success) => LineComplete(l, success)
  }

  /** One action of the real scheduler; a completion belongs to the oldest outstanding message. */
  function Step(t: Tables, s: Sched, op: Op): (Sched, seq<Event>) {
    match op
    case Propagate(p) => if p < t.tableSize then AfterPropagate(t, s, p) else (s, [])
    case Send(e) => (AfterSend(t, s, e), [])
    case Complete(success) => if s.outstanding == [] then (s, []) else AfterCompletion(t, s, 0, success, true)
  }

  // ------------------------------------------------------------------
  // The queue as a picture of the line
  // ------------------------------------------------------------------

  function Framed(groups: seq<Group>): seq<int> {
    if groups == [] then [] else groups[0].todo + [-1] + Framed(groups[1..])
  }

  /** The queue entries a line corresponds to: the end mark of a group that is being ended is gone. */
  function Entries(l: Line): seq<int> {
    if l.flight == EndOfGroup && l.groups != [] then Framed(l.groups[1..]) else Framed(l.groups)
  }

  ghost predicate Proper(t: Tables, g: Group) {
    g.primary < t.tableSize && forall k :: 0 <= k < |g.todo| ==> PrimaryOf(t, g.todo[k]) == g.primary
  }

  ghost predicate Waiting(g: Group) {
    g.todo != [] && g.outcomes == [] && g.todo == g.members && g.local == 0
  }

  /** Every index of the first group has been sent and answered, is on its way, stayed inside the node,
      or is still to be sent. */
  ghost predicate Accounted(l: Line) {
    l.groups != [] ==>
      var g := l.groups[0];
      |g.members| == |g.outcomes| + g.local + |g.todo| + if l.flight == Update then 1 else 0
  }

  function Failed(outcomes: seq<bool>): bool {
    false in outcomes
  }

  /** The refinement relation. */
  ghost predicate Matches(t: Tables, s: Sched, l: Line) {
    && s.q.entries == Entries(l)
    && (s.canSchedule <==> l.flight == Nothing)
    && (forall k :: 0 <= k < |l.groups| ==> Proper(t, l.groups[k]))
    && (forall k :: 0 < k < |l.groups| ==> Waiting(l.groups[k]))
    && (l.groups == [] ==> l.flight == Nothing && !s.failed)
    && (l.groups != [] ==>
          var g := l.groups[0];
          && s.failed == Failed(g.outcomes)
          && (l.flight == EndOfGroup ==> g.todo == [])
          && (g.todo == [] && l.flight != Update ==> s.nvOutIndex == g.primary)
          && s.outstanding == (match l.flight
                               case Nothing => []
                               case Update => [UpdateTag(g.primary)]
                               case EndOfGroup => [NV_UPDATE_LAST_TAG_VALUE]))
    && (l.groups == [] ==> s.outstanding == [])
    && Accounted(l)
  }

  /** The end mark of a propagation fits, and nothing of the group is cut off: two slots more than the
      group needs are free (one is never used, one is for the mark). */
  predicate GroupFits(t: Tables, s: Sched, p: nat)
    requires p < t.tableSize
  {
    |Eligible(t, p)| + 2 <= Space(s.q)
  }

  /** A message that SendVar has taken off the queue reaches the lower layer. */
  predicate NotLost(s: Sched, e: Surroundings) {
    s.canSchedule && s.q.entries != [] && !e.unconfigured && !e.full ==>
      if s.q.entries[0] == -1 then e.room
      else e.turnaroundOnly || (e.fits && e.room)
  }

  ghost predicate StepOk(t: Tables, s: Sched, op: Op) {
    match op
    case Propagate(p) => p < t.tableSize && IsBound(t, p) ==> GroupFits(t, s, p) || Eligible(t, p) == []
    case Send(e) => NotLost(s, e)
    case Complete(_) => true
  }

  ghost predicate InArray(a: ArrayEntry, index: int) {
    a.nvIndex <= index < a.nvIndex + a.dim
  }

  /** The index an event is given for a primary: where the first array that contains it starts, or the primary
      itself if there is none. */
  ghost predicate IsBase(t: Tables, p: int, base: int) {
    if forall k :: 0 <= k < |t.arrays| ==> !InArray(t.arrays[k], p) then base == p
    else exists k :: 0 <= k < |t.arrays| && FirstArray(t, p, k) && base == t.arrays[k].nvIndex
  }

  ghost predicate FirstArray(t: Tables, p: int, k: nat)
    requires k < |t.arrays|
  {
    InArray(t.arrays[k], p) && forall j :: 0 <= j < k ==> !InArray(t.arrays[j], p)
  }

  /** An event names a primary by the base of its array and the position in it. */
  ghost predicate Names(t: Tables, e: Event, p: nat) {
    e.base + e.arrayIndex == p && IsBase(t, p, e.base)
  }

  /** The event that reports what it should: of a finished group an error exactly if one of its messages failed;
      success at once for what is not bound; and a failure at once for what is bound but could not be sent. */
  ghost predicate Tells(t: Tables, e: Event, f: Finished) {
    && Names(t, e, f.primary)
    && match f
       case Finished(_, _, outcomes, _) =>
         (e.status == InvalidOperation <==> exists i :: 0 <= i < |outcomes| && !outcomes[i])
         && (e.status == NoError <==> forall i :: 0 <= i < |outcomes| ==> outcomes[i])
       case NotBound(_) => e.status == NoError
       case NoneSent(_) => e.status == PropagateFailure
  }

  lemma {:induction false} BaseIsBase(t: Tables, p: nat, k: nat)
    requires p < t.tableSize && k <= |t.arrays|
    requires forall j :: 0 <= j < k ==> !InArray(t.arrays[j], p)
    ensures IsBase(t, p, BaseOf(t, p, k))
    decreases |t.arrays| - k
  {
    if k < |t.arrays| {
      if InArray(t.arrays[k], p) {
        assert FirstArray(t, p, k);
      } else {
        BaseIsBase(t, p, k + 1);
      }
    }
  }

  lemma CompletedNames(t: Tables, p: nat, status: Status)
    requires p < t.tableSize
    ensures Names(t, Completed(t, p, status), p) && Completed(t, p, status).status == status
  {
    BaseIsBase(t, p, 0);
  }

  /** The variable or one of its aliases has an address, or is for this node itself. */
  ghost predicate SomewhereToGo(t: Tables, p: nat) {
    exists x :: 0 <= x < |t.nvs| && PrimaryOf(t, x) == p && (t.nvs[x].addressed || t.nvs[x].turnaround)
  }

  lemma BoundIff(t: Tables, p: nat)
    requires p < t.tableSize
    ensures IsBound(t, p) <==> SomewhereToGo(t, p)
  {
    assert PrimaryOf(t, p) == p;
    if SomewhereToGo(t, p) {
      var x :| 0 <= x < |t.nvs| && PrimaryOf(t, x) == p && (t.nvs[x].addressed || t.nvs[x].turnaround);
      assert Leads(t.nvs[x]);
    }
  }

  /** Every propagation, whatever the room: it is reported at once exactly if nothing was queued, as a success
      exactly if there is nowhere to go. */
  lemma ImmediateIff(t: Tables, s: Sched, p: nat)
    requires p < t.tableSize
    ensures var (s', events) := AfterPropagate(t, s, p);
      && (events == [] <==> s'.q.entries != s.q.entries)
      && (events == [] <==> SomewhereToGo(t, p) && Eligible(t, p) != [] && Space(s.q) > 1)
      && (events != [] ==>
            |events| == 1 && s' == s && Names(t, events[0], p)
            && events[0].status == if SomewhereToGo(t, p) then PropagateFailure else NoError)
  {
    CompletedNames(t, p, NoError);
    CompletedNames(t, p, PropagateFailure);
    BoundIff(t, p);
    hide IsBound, Eligible, Completed, Names, SomewhereToGo;
    var members := Take(Eligible(t, p), Space(s.q) - 1);
    if IsBound(t, p) && members != [] {
      assert |AfterPropagate(t, s, p).0.q.entries| > |s.q.entries|;
    }
  }

  /** Every completion: only the one that ends a group is reported, if the application runs, for the primary whose
      message was completed last, and as an error exactly if one failed since the last such report. */
  lemma CompletionIff(t: Tables, s: Sched, i: nat, success: bool, appRuns: bool)
    requires i < |s.outstanding| && 0 <= s.nvOutIndex < t.tableSize
    ensures var (s', events) := AfterCompletion(t, s, i, success, appRuns);
      && (events == [] <==> !(IsLastTag(s.outstanding[i]) && appRuns))
      && (events != [] ==>
            |events| == 1 && Names(t, events[0], s.nvOutIndex)
            && events[0].status == if s.failed then InvalidOperation else NoError)
      && s'.canSchedule && s'.q == s.q
      && (s'.failed <==> !IsLastTag(s.outstanding[i]) && (s.failed || !success))
      && s'.nvOutIndex == if IsLastTag(s.outstanding[i]) then s.nvOutIndex else IndexOfTag(s.outstanding[i])
  {
    CompletedNames(t, s.nvOutIndex, InvalidOperation);
    CompletedNames(t, s.nvOutIndex, NoError);
    hide Completed, Names, IsLastTag, IndexOfTag;
  }

  /** What an update of a primary goes to: each output variable among the primary and its aliases, once, the
      primary first and the aliases as they are in the table. */
  lemma EligibleIs(t: Tables, p: nat)
    requires p < t.tableSize
    ensures var e := Eligible(t, p);
      && (forall x :: x in e <==> 0 <= x < |t.nvs| && PrimaryOf(t, x) == p && t.nvs[x].output)
      && Ascending(e)
  {
    AliasesAre(t, p, t.tableSize);
    var aliases := EligibleAliases(t, p, t.tableSize);
    hide EligibleAliases, Ascending;
    if t.nvs[p].output {
      AscendingCons(p, aliases);
    } else {
      assert [] + aliases == aliases;
    }
  }

  ghost predicate Ascending(s: seq<int>) {
    forall i, j :: 0 <= i < j < |s| ==> s[i] < s[j]
  }

  lemma AscendingCons(x: int, rest: seq<int>)
    requires Ascending(rest) && forall y :: y in rest ==> x < y
    ensures Ascending([x] + rest) && forall y :: y in [x] + rest <==> y == x || y in rest
  {
    forall j | 0 < j < |[x] + rest| ensures x < ([x] + rest)[j] { assert rest[j - 1] in rest; }
  }

  ghost predicate IsAlias(t: Tables, p: nat, x: int) {
    t.tableSize <= x < |t.nvs| && PrimaryOf(t, x) == p && t.nvs[x].output
  }

  lemma {:induction false} AliasesAre(t: Tables, p: nat, j: nat)
    requires p < t.tableSize <= j <= |t.nvs|
    ensures var e := EligibleAliases(t, p, j);
      (forall x :: x in e <==> j <= x && IsAlias(t, p, x)) && Ascending(e)
    decreases |t.nvs| - j
  {
    if j < |t.nvs| {
      AliasesAre(t, p, j + 1);
      var rest := EligibleAliases(t, p, j + 1);
      hide Ascending;
      assert IsAlias(t, p, j) <==> PrimaryOf(t, j) == p && t.nvs[j].output;
      assert EligibleAliases(t, p, j) == (if IsAlias(t, p, j) then [j] else []) + rest;
      hide IsAlias, EligibleAliases, PrimaryOf;
      if IsAlias(t, p, j) {
        AscendingCons(j, rest);
      } else {
        assert [] + rest == rest;
      }
    }
  }

  lemma {:induction false} FramedSnoc(groups: seq<Group>, g: Group)
    ensures Framed(groups + [g]) == Framed(groups) + g.todo + [-1]
    decreases |groups|
  {
    if groups == [] {
      assert groups + [g] == [g];
    } else {
      assert (groups + [g])[1..] == groups[1..] + [g];
      FramedSnoc(groups[1..], g);
    }
  }

  lemma {:induction false} EligibleIsProper(t: Tables, p: int, j: nat)
    requires t.tableSize <= j <= |t.nvs|
    ensures forall k :: 0 <= k < |EligibleAliases(t, p, j)| ==> PrimaryOf(t, EligibleAliases(t, p, j)[k]) == p
    decreases |t.nvs| - j
  {
    if j < |t.nvs| { EligibleIsProper(t, p, j + 1); }
  }

  lemma AppendMatches(t: Tables, s: Sched, l: Line, g: Group)
    requires Matches(t, s, l) && Proper(t, g) && Waiting(g)
    ensures Matches(t, s.(q := s.q.(entries := s.q.entries + g.todo + [-1])), l.(groups := l.groups + [g]))
  {
    FramedSnoc(l.groups, g);
    var l' := l.(groups := l.groups + [g]);
    if l.groups != [] {
      FramedSnoc(l.groups[1..], g);
      assert l'.groups[1..] == l.groups[1..] + [g];
    }
    assert Entries(l') == Entries(l) + g.todo + [-1];
  }

  lemma FittingPropagate(t: Tables, s: Sched, p: nat)
    requires p < t.tableSize && IsBound(t, p) && Eligible(t, p) != [] && GroupFits(t, s, p)
    ensures AfterPropagate(t, s, p).0 == s.(q := s.q.(entries := s.q.entries + Eligible(t, p) + [-1]))
  {
    hide Eligible, IsBound;
    assert s.q.entries + Eligible(t, p) + [-1] == (s.q.entries + Eligible(t, p)) + [-1];
  }

  lemma PropagateMatches(t: Tables, s: Sched, l: Line, p: nat)
    requires Matches(t, s, l) && p < t.tableSize && StepOk(t, s, Propagate(p))
    ensures Matches(t, AfterPropagate(t, s, p).0, LineStep(t, l, Propagate(p)).0)
  {
    hide Matches, IsBound;
    if IsBound(t, p) && Eligible(t, p) != [] {
      EligibleIsProper(t, p, t.tableSize);
      FittingPropagate(t, s, p);
      AppendMatches(t, s, l, Group(p, Eligible(t, p), Eligible(t, p), [], 0));
    }
  }

  lemma SendMatches(t: Tables, s: Sched, l: Line, e: Surroundings)
    requires Matches(t, s, l) && NotLost(s, e)
    ensures Matches(t, AfterSend(t, s, e), LineSend(l, e))
  {
    if l.flight == Nothing && l.groups != [] {
      var g := l.groups[0];
      assert Framed(l.groups) == g.todo + [-1] + Framed(l.groups[1..]);
      if g.todo != [] {
        assert s.q.entries[0] == g.todo[0];
        var g' := g.(todo := g.todo[1..]);
        var groups' := l.groups[0 := g'];
        assert groups'[1..] == l.groups[1..];
        assert Framed(groups') == (g.todo + [-1] + Framed(l.groups[1..]))[1..];
      } else {
        assert s.q.entries[0] == -1;
        assert Framed(l.groups[1..]) == s.q.entries[1..];
      }
    }
  }

  lemma CompleteMatches(t: Tables, s: Sched, l: Line, success: bool)
    requires Matches(t, s, l)
    ensures var (s', events) := Step(t, s, Complete(success));
      var (l', finished) := LineComplete(l, success);
      && Matches(t, s', l')
      && |events| == |finished| <= 1
      && (finished != [] ==>
            && finished[0].Finished? && Tells(t, events[0], finished[0])
            && |finished[0].members| == |finished[0].outcomes| + finished[0].local)
  {
    CompletionMatches(t, s, l, success);
    if s.outstanding != [] && l.flight == EndOfGroup {
      TagsRoundTrip(l.groups[0].primary);
      CompletionIff(t, s, 0, success, true);
      hide Names, Completed, Entries, Accounted, IsLastTag, UpdateTag, Waiting;
    } else {
      if s.outstanding != [] { TagsRoundTrip(l.groups[0].primary); }
      hide Names, Completed, Entries, Accounted, UpdateTag, Waiting, Tells;
    }
  }

  lemma CompletionMatches(t: Tables, s: Sched, l: Line, success: bool)
    requires Matches(t, s, l)
    ensures Matches(t, Step(t, s, Complete(success)).0, LineComplete(l, success).0)
  {
    hide Completed;
    if s.outstanding != [] {
      var g := l.groups[0];
      TagsRoundTrip(g.primary);
      if l.flight == Update {
        assert l.groups[0 := g.(outcomes := g.outcomes + [success])][1..] == l.groups[1..];
      }
    }
  }

  // ------------------------------------------------------------------
  // Whole runs
  // ------------------------------------------------------------------

  ghost predicate RunOk(t: Tables, s: Sched, ops: seq<Op>)
    decreases |ops|
  {
    ops == [] || (StepOk(t, s, ops[0]) && RunOk(t, Step(t, s, ops[0]).0, ops[1..]))
  }

  function Run(t: Tables, s: Sched, ops: seq<Op>): (Sched, seq<Event>)
    decreases |ops|
  {
    if ops == [] then (s, [])
    else
      var (s1, e1) := Step(t, s, ops[0]);
      var (s2, e2) := Run(t, s1, ops[1..]);
      (s2, e1 + e2)
  }

  function LineRun(t: Tables, l: Line, ops: seq<Op>): (Line, seq<Finished>)
    decreases |ops|
  {
    if ops == [] then (l, [])
    else
      var (l1, f1) := LineStep(t, l, ops[0]);
      var (l2, f2) := LineRun(t, l1, ops[1..]);
      (l2, f1 + f2)
  }

  ghost predicate Reports(t: Tables, events: seq<Event>, finished: seq<Finished>) {
    && |events| == |finished|
    && forall k :: 0 <= k < |events| ==> Tells(t, events[k], finished[k])
  }

  ghost predicate AllAccounted(finished: seq<Finished>) {
    forall k :: 0 <= k < |finished| && finished[k].Finished? ==> |finished[k].members| == |finished[k].outcomes| + finished[k].local
  }

  lemma StepMatches(t: Tables, s: Sched, l: Line, op: Op)
    requires Matches(t, s, l) && StepOk(t, s, op)
    ensures Matches(t, Step(t, s, op).0, LineStep(t, l, op).0)
    ensures Reports(t, Step(t, s, op).1, LineStep(t, l, op).1)
    ensures AllAccounted(LineStep(t, l, op).1)
  {
    match op
    case Propagate(p) =>
      if p < t.tableSize {
        PropagateMatches(t, s, l, p);
        ImmediateIff(t, s, p);
        BoundIff(t, p);
        hide Matches, IsBound, SomewhereToGo, Eligible, Names;
      }
    case Send(e) => SendMatches(t, s, l, e);
    case Complete(success) => CompleteMatches(t, s, l, success);
  }

  lemma ReportsConcat(t: Tables, e1: seq<Event>, f1: seq<Finished>, e2: seq<Event>, f2: seq<Finished>)
    requires Reports(t, e1, f1) && Reports(t, e2, f2) && AllAccounted(f1) && AllAccounted(f2)
    ensures Reports(t, e1 + e2, f1 + f2) && AllAccounted(f1 + f2)
  {
    hide Tells;
  }

  lemma AtMostOne(t: Tables, s: Sched, l: Line)
    requires Matches(t, s, l)
    ensures |s.outstanding| <= 1
  {}

  /** Over every run in which groups fit and messages are not lost, the queue stays a picture of the line
      of groups, at most one message is outstanding, and there is one completion event for every finished
      group, naming its primary and carrying an error exactly when one of its messages failed; each index
      of the group had one outcome or stayed inside the node. */
  lemma {:induction false} RunMatches(t: Tables, s: Sched, l: Line, ops: seq<Op>)
    requires Matches(t, s, l) && RunOk(t, s, ops)
    ensures var (s', events) := Run(t, s, ops);
      var (l', finished) := LineRun(t, l, ops);
      && Matches(t, s', l') && |s'.outstanding| <= 1
      && Reports(t, events, finished)
      && AllAccounted(finished)
    decreases |ops|
  {
    hide Matches, StepOk, Step, LineStep, Reports, AllAccounted;
    if ops == [] {
      AtMostOne(t, s, l);
      NothingReported(t);
    } else {
      StepMatches(t, s, l, ops[0]);
      var (s1, e1) := Step(t, s, ops[0]);
      var (l1, f1) := LineStep(t, l, ops[0]);
      RunMatches(t, s1, l1, ops[1..]);
      ReportsConcat(t, e1, f1, Run(t, s1, ops[1..]).1, LineRun(t, l1, ops[1..]).1);
    }
  }

  lemma NothingReported(t: Tables)
    ensures Reports(t, [], []) && AllAccounted([])
  {}

  function Primaries(groups: seq<Group>): (r: seq<nat>)
    ensures |r| == |groups|
  {
    if groups == [] then [] else [groups[0].primary] + Primaries(groups[1..])
  }

  /** The primary of a group. */
  function Ended(f: Finished): seq<nat> {
    if f.Finished? then [f.primary] else []
  }

  function FinishedPrimaries(f: seq<Finished>): seq<nat> {
    if f == [] then [] else Ended(f[0]) + FinishedPrimaries(f[1..])
  }

  /** The primaries propagated during a run, as long as there was anything to send. */
  function Started(t: Tables, ops: seq<Op>): seq<nat> {
    if ops == [] then []
    else
      (match ops[0]
       case Propagate(p) => if p < t.tableSize && IsBound(t, p) && Eligible(t, p) != [] then [p] else []
       case _ => []) + Started(t, ops[1..])
  }

  lemma {:induction false} PrimariesSnoc(groups: seq<Group>, g: Group)
    ensures Primaries(groups + [g]) == Primaries(groups) + [g.primary]
    decreases |groups|
  {
    if groups == [] {
      assert groups + [g] == [g];
    } else {
      assert (groups + [g])[1..] == groups[1..] + [g];
      PrimariesSnoc(groups[1..], g);
    }
  }

  lemma LineStepKeepsOrder(t: Tables, l: Line, op: Op)
    ensures Primaries(l.groups) + Started(t, [op]) ==
      FinishedPrimaries(LineStep(t, l, op).1) + Primaries(LineStep(t, l, op).0.groups)
  {
    assert Started(t, []) == [];
    match op
    case Propagate(p) =>
      if p < t.tableSize { PrimariesSnoc(l.groups, Group(p, Eligible(t, p), Eligible(t, p), [], 0)); }
    case Send(e) =>
      if l.groups != [] { assert LineSend(l, e).groups[1..] == l.groups[1..]; }
    case Complete(success) =>
      if l.groups != [] && l.flight == Update { assert LineComplete(l, success).0.groups[1..] == l.groups[1..]; }
  }

  lemma Associate(a: seq<nat>, b: seq<nat>, c: seq<nat>)
    ensures a + b + c == a + (b + c)
  {}

  lemma {:induction false} FinishedConcat(a: seq<Finished>, b: seq<Finished>)
    ensures FinishedPrimaries(a + b) == FinishedPrimaries(a) + FinishedPrimaries(b)
    decreases |a|
  {
    if a == [] {
      assert a + b == b;
    } else {
      assert (a + b)[1..] == a[1..] + b;
      hide Ended;
      FinishedConcat(a[1..], b);
      Associate(Ended(a[0]), FinishedPrimaries(a[1..]), FinishedPrimaries(b));
    }
  }

  /** The line serves the propagated primaries once each and in order. */
  lemma {:induction false} LineIsFifo(t: Tables, l: Line, ops: seq<Op>)
    ensures Primaries(l.groups) + Started(t, ops) ==
      FinishedPrimaries(LineRun(t, l, ops).1) + Primaries(LineRun(t, l, ops).0.groups)
    decreases |ops|
  {
    if ops == [] {
      assert Primaries(l.groups) + [] == Primaries(l.groups);
    } else {
      var (l1, f1) := LineStep(t, l, ops[0]);
      var f2 := LineRun(t, l1, ops[1..]).1;
      LineStepKeepsOrder(t, l, ops[0]);
      LineIsFifo(t, l1, ops[1..]);
      FinishedConcat(f1, f2);
      assert Started(t, []) == [];
      assert Started(t, [ops[0]]) + Started(t, ops[1..]) == Started(t, ops);
      Regroup(Primaries(l.groups), Started(t, [ops[0]]), FinishedPrimaries(f1), Primaries(l1.groups),
              Started(t, ops[1..]), FinishedPrimaries(f2), Primaries(LineRun(t, l, ops).0.groups));
    }
  }

  // ------------------------------------------------------------------
  // Exactly when it goes wrong
  // ------------------------------------------------------------------

  /** A propagation that schedules anything schedules all of its group and the end mark exactly when two
      slots more than the group needs are free. */
  lemma GroupCompleteIff(t: Tables, s: Sched, p: nat)
    requires p < t.tableSize && IsBound(t, p) && Eligible(t, p) != []
    ensures AfterPropagate(t, s, p).0.q.entries == s.q.entries + Eligible(t, p) + [-1] <==> GroupFits(t, s, p)
    ensures var e, room := Eligible(t, p), Space(s.q) - 1;
      !GroupFits(t, s, p) ==>
        AfterPropagate(t, s, p).0.q.entries == s.q.entries + if room <= 0 then [] else if room <= |e| then e[..room] else e
  {
    var after := AfterPropagate(t, s, p).0.q.entries;
    var members := Take(Eligible(t, p), Space(s.q) - 1);
    if !GroupFits(t, s, p) {
      assert |members| == Space(s.q) - 1 || members == [];
      assert after == s.q.entries + members;
      assert |after| < |s.q.entries + Eligible(t, p) + [-1]|;
    } else {
      assert members == Eligible(t, p);
    }
  }

  /** A variable with three output aliases, propagated into the empty queue of five slots: its four
      indices are queued and the end mark is lost. */
  lemma EndMarkLost(t: Tables, s: Sched, p: nat)
    requires p < t.tableSize && IsBound(t, p) && |Eligible(t, p)| == 4
    requires s.q == Fifo(MAX_NV_OUT, [])
    ensures AfterPropagate(t, s, p).0.q.entries == Eligible(t, p) && -1 !in AfterPropagate(t, s, p).0.q.entries
  {
    GroupCompleteIff(t, s, p);
    EligibleIs(t, p);
    hide Eligible, IsBound, AfterPropagate, Ascending;
    assert [] + Eligible(t, p) == Eligible(t, p) && Eligible(t, p)[..4] == Eligible(t, p);
  }

  /** SendVar leaves the scheduler able to go on, or waiting for a message that really is under way,
      exactly when it does not lose the message. */
  lemma LostIffStalled(t: Tables, s: Sched, l: Line, e: Surroundings)
    requires Matches(t, s, l)
    ensures var s' := AfterSend(t, s, e);
      (!s'.canSchedule && s'.outstanding == []) <==> !NotLost(s, e)
  {
    if l.groups != [] && l.flight == Nothing {
      var g := l.groups[0];
      assert Framed(l.groups) == g.todo + [-1] + Framed(l.groups[1..]);
      if g.todo != [] { assert s.q.entries[0] == g.todo[0]; }
    }
  }

  /** An event of a propagation of which nothing was queued. */
  ghost predicate OfPropagation(t: Tables, e: Event, ops: seq<Op>) {
    exists i :: 0 <= i < |ops| && ops[i].Propagate? && ops[i].primary < t.tableSize && Names(t, e, ops[i].primary)
                && e.status == if SomewhereToGo(t, ops[i].primary) then PropagateFailure else NoError
  }

  /** A stalled scheduler never sends and never completes anything again; all it does is to report propagations
      of which nothing was queued. */
  lemma {:induction false} StallIsForever(t: Tables, s: Sched, ops: seq<Op>)
    requires !s.canSchedule && s.outstanding == []
    ensures var (s', events) := Run(t, s, ops);
      !s'.canSchedule && s'.outstanding == [] && forall k :: 0 <= k < |events| ==> OfPropagation(t, events[k], ops)
    decreases |ops|
  {
    if ops != [] {
      var (s1, e1) := Step(t, s, ops[0]);
      var e2 := Run(t, s1, ops[1..]).1;
      if ops[0].Propagate? && ops[0].primary < t.tableSize { ImmediateIff(t, s, ops[0].primary); }
      hide IsBound, SomewhereToGo, Eligible, Names, Completed;
      StallIsForever(t, s1, ops[1..]);
      forall k | 0 <= k < |e2| ensures OfPropagation(t, e2[k], ops) {
        var i :| 0 <= i < |ops[1..]| && ops[1..][i].Propagate? && ops[1..][i].primary < t.tableSize
                 && Names(t, e2[k], ops[1..][i].primary)
                 && e2[k].status == if SomewhereToGo(t, ops[1..][i].primary) then PropagateFailure else NoError;
        assert ops[i + 1] == ops[1..][i];
      }
    }
  }

  // ------------------------------------------------------------------
  // The state the application layer updates in place
  // ------------------------------------------------------------------

  class Scheduler {
    const t: Tables
    var q: Fifo<int>
    var canSchedule: bool
    var nvOutIndex: int
    var nvOutFailed: bool
    var outstanding: seq<nat>
    var events: seq<Event>     // calls of IzotDatapointUpdateCompleted, oldest first

    function Model(): Sched
      reads this
    {
      Sched(q, canSchedule, nvOutIndex, nvOutFailed, outstanding)
    }

    constructor (t: Tables)
      ensures this.t == t && events == []
      ensures Matches(t, Model(), Line([], Nothing))
    {
      this.t := t;
      q := Fifo(MAX_NV_OUT, []);
      canSchedule, nvOutIndex, nvOutFailed, outstanding, events := true, 0, false, [], [];
    }

    /** `IsNVBound` */
    method IsNVBound(p: nat) returns (bound: bool)
      requires p < t.tableSize
      ensures bound == IsBound(t, p)
    {
      if Leads(t.nvs[p]) { return true; }
      var i := 0;
      while i < NV_ALIAS_TABLE_SIZE
        invariant i <= NV_ALIAS_TABLE_SIZE
        invariant forall j :: t.tableSize <= j < t.tableSize + i ==> !(PrimaryOf(t, j) == p && Leads(t.nvs[j]))
      {
        if PrimaryOf(t, t.tableSize + i) == p && Leads(t.nvs[t.tableSize + i]) { return true; }
        i := i + 1;
      }
      bound := false;
    }

    /** `IsArrayNV`, the base index of it. */
    method BaseIndex(index: int) returns (base: int)
      ensures base == BaseOf(t, index, 0)
    {
      base := index;
      if index < 0 || index >= t.tableSize { return; }
      var i := 0;
      while i < |t.arrays|
        invariant i <= |t.arrays| && BaseOf(t, index, 0) == BaseOf(t, index, i)
      {
        if t.arrays[i].nvIndex <= index < t.arrays[i].nvIndex + t.arrays[i].dim { return t.arrays[i].nvIndex; }
        i := i + 1;
      }
    }

    method Notify(primary: int, status: Status)
      modifies this`events
      ensures events == old(events) + [Completed(t, primary, status)]
    {
      var base := BaseIndex(primary);
      events := events + [UpdateCompleted(base, primary - base, status)];
    }

    /** The scheduling loop of `PropagateThisPrimary`: the primary first, then its aliases, while more than
        one slot is free. */
    method QueueGroup(p: nat) returns (count: nat)
      requires p < t.tableSize && |q.entries| <= q.capacity
      modifies this`q
      ensures var members := Take(Eligible(t, p), Space(old(q)) - 1);
        q == old(q).(entries := old(q).entries + members) && count == |members|
    {
      var queueSpace := q.capacity - |q.entries|;
      ghost var start, all := q, Eligible(t, p);
      count := 0;
      ghost var done: seq<int> := [];
      if queueSpace > 1 && t.nvs[p].output {
        q := q.Write(p);
        count := count + 1;
        queueSpace := queueSpace - 1;
        done := [p as int];
      }
      var j := t.tableSize;
      while j < t.tableSize + NV_ALIAS_TABLE_SIZE && queueSpace > 1
        invariant t.tableSize <= j <= |t.nvs|
        invariant queueSpace == Space(start) - |done| == Space(q) && count == |done|
        invariant q == start.(entries := start.entries + done)
        invariant queueSpace > 1 ==> all == done + EligibleAliases(t, p, j)
        invariant queueSpace <= 1 ==> done == Take(all, Space(start) - 1)
      {
        if PrimaryOf(t, j) == p && t.nvs[j].output {
          q := q.Write(j);
          count := count + 1;
          queueSpace := queueSpace - 1;
          assert start.entries + done + [j] == start.entries + (done + [j]);
          done := done + [j];
        }
        j := j + 1;
        assert queueSpace >= 1 ==> all == done + EligibleAliases(t, p, j);
      }
      assert done == Take(all, Space(start) - 1);
    }

    /** `PropagateThisPrimary` */
    method PropagateThisPrimary(p: nat)
      requires p < t.tableSize && |q.entries| <= q.capacity
      modifies this
      ensures (Model(), events) == (AfterPropagate(t, old(Model()), p).0, old(events) + AfterPropagate(t, old(Model()), p).1)
    {
      var bound := IsNVBound(p);
      if !bound {
        Notify(p, NoError);
        return;
      }
      var count := QueueGroup(p);
      assert old(events) + [] == old(events) && old(q.entries) + [] == old(q.entries);
      if count == 0 {
        Notify(p, PropagateFailure);
      } else {
        q := q.Write(-1);
      }
    }

    /** `SendVar` */
    method SendVar(e: Surroundings)
      modifies this
      ensures (Model(), events) == (AfterSend(t, old(Model()), e), old(events))
    {
      if !canSchedule || q.entries == [] { return; }
      var index := q.entries[0];
      if e.unconfigured { return; }
      if index == -1 || !e.turnaroundOnly {
        if e.full { return; }
      }
      if index == -1 {
        if e.room { outstanding := outstanding + [NV_UPDATE_LAST_TAG_VALUE]; }
        canSchedule := false;
        q := q.DropHead();
        return;
      }
      var primary := PrimaryOf(t, index);
      if e.turnaroundOnly {
        nvOutIndex := primary;
        q := q.DropHead();
        return;
      }
      canSchedule := false;
      q := q.DropHead();
      if !e.fits { return; }
      if e.room && primary >= 0 {
        outstanding := outstanding + [UpdateTag(primary)];
      }
    }

    /** `HandleMsgCompletion` for an NV update tag. */
    method HandleMsgCompletion(i: nat, success: bool, appRuns: bool)
      requires i < |outstanding|
      modifies this
      ensures var (s', new_events) := AfterCompletion(t, old(Model()), i, success, appRuns);
        (Model(), events) == (s', old(events) + new_events)
    {
      assert old(events) + [] == old(events);
      var tag := outstanding[i];
      outstanding := outstanding[..i] + outstanding[i + 1..];
      if IsLastTag(tag) {
        var primary := nvOutIndex;
        var stat := if nvOutFailed then InvalidOperation else NoError;
        nvOutFailed := false;
        if appRuns {
          Notify(primary, stat);
        }
      } else {
        nvOutIndex := IndexOfTag(tag);
        if !success {
          nvOutFailed := true;
        }
      }
      canSchedule := true;
    }
  }
}
