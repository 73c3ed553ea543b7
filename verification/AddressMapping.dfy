/** The address mapping cache of lon_udp_mapping_util.c: which IP address reaches which LON address. */
module AddressMapping {
  import opened Bytes
  import opened LonAddress

  // ------------------------------------------------------------------
  // The table
  // ------------------------------------------------------------------

  datatype State = Available | Derived | Arbitrary

  datatype RawSlot = Slot(state: State, domainId: seq<byte>, domainLen: nat, subnetId: byte, nodeId: byte, ip: Ip)
  type Slot = s: RawSlot | |s.domainId| == 6 && s.domainLen <= 6 witness Slot(Available, seq(6, _ => 0), 0, 0, 0, [0, 0, 0, 0])

  /** What `memset` leaves. */
  const ZEROED: Slot := Slot(Available, seq(6, _ => 0), 0, 0, 0, [0, 0, 0, 0])

  const MAX_LS_MAP_INFO := 50

  /** A domain as it is compared and stored: of three bytes only two count. */
  function Compared(domain: seq<byte>): seq<byte> {
    if |domain| == 3 then domain[..2] else domain
  }

  datatype Key = Key(domain: seq<byte>, subnet: byte, node: byte)

  function KeyOf(domain: seq<byte>, subnet: byte, node: byte): Key {
    Key(Compared(domain), subnet, node % 128)
  }

  function KeyIn(s: Slot): Key {
    Key(s.domainId[..s.domainLen], s.subnetId, s.nodeId)
  }

  predicate Live(s: Slot) {
    !s.state.Available?
  }

  /** What the cache tells about a live entry. */
  datatype Route = ByDerivation | At(ip: Ip)

  function RouteOf(s: Slot): Route {
    if s.state.Arbitrary? then At(s.ip) else ByDerivation
  }

  /** What a caller writes into an entry. */
  datatype News = NowDerived | NowArbitrary(ip: Ip) | NowDerivedAt(ip: Ip)

  function Marked(s: Slot, n: News): Slot {
    match n
    case NowDerived => s.(state := Derived)
    case NowArbitrary(ip) => s.(state := Arbitrary, ip := ip)
    case NowDerivedAt(ip) => s.(state := Derived, ip := ip)
  }

  function RouteFor(n: News): Route {
    if n.NowArbitrary? then At(n.ip) else ByDerivation
  }

  function FreshSlot(domain: seq<byte>, subnet: byte, node: byte): Slot
    requires |domain| <= 6
  {
    var d := Compared(domain);
    Slot(Available, d + seq(6 - |d|, _ => 0), |d|, subnet, node % 128, [0, 0, 0, 0])
  }

  // ------------------------------------------------------------------
  // Operations on the used part of the table
  // ------------------------------------------------------------------

  /** What the scan loops look for. */
  datatype Query = LiveKey(key: Key) | Free | InSubnet(subnet: nat)

  predicate Hits(s: Slot, q: Query) {
    match q
    case LiveKey(key) => Live(s) && KeyIn(s) == key
    case Free => !Live(s)
    case InSubnet(subnet) => s.subnetId == subnet
  }

  /** The first hit, or the length of the table. */
  function First(t: seq<Slot>, q: Query): (i: nat)
    ensures i <= |t|
    ensures i < |t| ==> Hits(t[i], q)
    ensures forall j :: 0 <= j < i ==> !Hits(t[j], q)
  {
    if t == [] || Hits(t[0], q) then 0 else 1 + First(t[1..], q)
  }

  /** Finds or makes the entry of an address and writes the news into it; a full table starts over. */
  function Learn(t: seq<Slot>, domain: seq<byte>, subnet: byte, node: byte, n: News): seq<Slot>
    requires |domain| <= 6
  {
    var i := First(t, LiveKey(KeyOf(domain, subnet, node)));
    var s := Marked(FreshSlot(domain, subnet, node), n);
    var j := First(t, Free);
    if i < |t| then t[i := Marked(t[i], n)]
    else if j < |t| then t[j := s]
    else if |t| >= MAX_LS_MAP_INFO then [s]
    else t + [s]
  }

  /** The bitmap of a subnets message, 32 bytes, highest bit first. */
  type Bitmap = b: seq<byte> | |b| == 32 witness seq(32, _ => 0)

  function Weight(j: nat): nat
    ensures Weight(j) > 0
  {
    match j
    case 0 => 128
    case 1 => 64
    case 2 => 32
    case 3 => 16
    case 4 => 8
    case 5 => 4
    case 6 => 2
    case _ => 1
  }

  predicate BitSet(x: byte, j: nat) {
    x / Weight(j) % 2 == 1
  }

  predicate Flagged(bits: Bitmap, subnet: nat) {
    subnet < 256 && BitSet(bits[subnet / 8], subnet % 8)
  }

  /** One digit: x / 2^k, given x / 2^(k+1) and the bit of weight 2^k. */
  lemma Digit(x: byte, j: nat, q: nat, half: nat)
    requires j < 8 && q == x / Weight(j) && half == q / 2
    ensures q == 2 * half + Bit(BitSet(x, j))
  {}

  lemma Quotients(x: byte)
    ensures x / 1 == x && x / 4 == x / 2 / 2 && x / 8 == x / 4 / 2 && x / 16 == x / 8 / 2
    ensures x / 32 == x / 16 / 2 && x / 64 == x / 32 / 2 && x / 128 == x / 64 / 2 && x / 128 / 2 == 0
  {}

  /** The bits of a byte are its digits, the highest first. */
  lemma BitsOfByte(x: byte)
    ensures x == 128 * Bit(BitSet(x, 0)) + 64 * Bit(BitSet(x, 1)) + 32 * Bit(BitSet(x, 2)) + 16 * Bit(BitSet(x, 3))
      + 8 * Bit(BitSet(x, 4)) + 4 * Bit(BitSet(x, 5)) + 2 * Bit(BitSet(x, 6)) + Bit(BitSet(x, 7))
  {
    hide BitSet;
    Quotients(x);
    Digit(x, 7, x, x / 2);
    Digit(x, 6, x / 2, x / 4);
    Digit(x, 5, x / 4, x / 8);
    Digit(x, 4, x / 8, x / 16);
    Digit(x, 3, x / 16, x / 32);
    Digit(x, 2, x / 32, x / 64);
    Digit(x, 1, x / 64, x / 128);
    Digit(x, 0, x / 128, 0);
  }

  /** Byte k of a bitmap is about subnets 8 k to 8 k + 7, the first of them in the highest bit. */
  lemma BitmapIsOfSubnets(bits: Bitmap, k: nat)
    requires k < 32
    ensures bits[k] == 128 * Bit(Flagged(bits, 8 * k)) + 64 * Bit(Flagged(bits, 8 * k + 1)) + 32 * Bit(Flagged(bits, 8 * k + 2))
      + 16 * Bit(Flagged(bits, 8 * k + 3)) + 8 * Bit(Flagged(bits, 8 * k + 4)) + 4 * Bit(Flagged(bits, 8 * k + 5))
      + 2 * Bit(Flagged(bits, 8 * k + 6)) + Bit(Flagged(bits, 8 * k + 7))
  {
    BitsOfByte(bits[k]);
    hide BitSet;
  }

  function SubnetState(derived: bool): State {
    if derived then Derived else Available
  }

  /** The first slot with the subnet, live or not, changes state. */
  function Touch(t: seq<Slot>, subnet: nat, derived: bool): (t': seq<Slot>)
    ensures |t'| == |t|
  {
    var k := First(t, InSubnet(subnet));
    if k < |t| then t[k := t[k].(state := SubnetState(derived))] else t
  }

  function SubnetsFrom(t: seq<Slot>, bits: Bitmap, derived: bool, from: nat): (t': seq<Slot>)
    requires from <= 256
    ensures |t'| == |t|
    decreases 256 - from
  {
    if from == 256 then t
    else SubnetsFrom(if Flagged(bits, from) then Touch(t, from, derived) else t, bits, derived, from + 1)
  }

  /** The news in an announcement: it compares the address with the one derived from the name. */
  function Announced(domain: seq<byte>, subnet: byte, node: byte, ip: Ip): News {
    if ip[2] == subnet && ip[3] == node
       && ((|domain| == 0 && ip[0] == 192 && ip[1] == 168) || (|domain| == 1 && ip[0] == 10)
           || (|domain| == 3 && ip[0] == domain[0] && ip[1] == domain[1]))
    then NowDerivedAt(ip) else NowArbitrary(ip)
  }

  /** The domain that every operation names; at most 6 bytes. */
  type Domain = d: seq<byte> | |d| <= 6

  datatype Op =
    | SetArbitrary(domain: Domain, subnet: byte, node: byte, ip: Ip)
    | SetDerived(domain: Domain, subnet: byte, node: byte)
    | Update(domain: Domain, subnet: byte, node: byte, ip: Ip)
    | SetSubnets(derived: bool, bits: Bitmap)
    | Clear

  function NewsOf(op: Op): News
    requires !op.SetSubnets? && !op.Clear?
  {
    match op
    case SetArbitrary(_, _, _, ip) => NowArbitrary(ip)
    case SetDerived(_, _, _) => NowDerived
    case Update(d, s, n, ip) => Announced(d, s, n, ip)
  }

  function Step(t: seq<Slot>, op: Op): seq<Slot> {
    match op
    case SetSubnets(derived, bits) => SubnetsFrom(t, bits, derived, 0)
    case Clear => seq(|t|, _ => ZEROED)
    case _ => Learn(t, op.domain, op.subnet, op.node, NewsOf(op))
  }

  function Run(t: seq<Slot>, ops: seq<Op>): seq<Slot>
    decreases |ops|
  {
    if ops == [] then t else Run(Step(t, ops[0]), ops[1..])
  }

  // ------------------------------------------------------------------
  // The abstract map
  // ------------------------------------------------------------------

  function Cache(t: seq<Slot>): map<Key, Route> {
    if t == [] then map[]
    else
      var rest, last := Cache(t[..|t| - 1]), t[|t| - 1];
      if Live(last) then rest[KeyIn(last) := RouteOf(last)] else rest
  }

  /** The keys that a subnets message names: of each flagged subnet, that of the first slot. */
  ghost function Named(t: seq<Slot>, bits: Bitmap): set<Key> {
    set k | 0 <= k < |t| && First(t, InSubnet(t[k].subnetId)) == k && Flagged(bits, t[k].subnetId) :: KeyIn(t[k])
  }

  /** A map of at most 50 addresses that forgets everything when a 51st comes. */
  function AbstractLearn(c: map<Key, Route>, key: Key, r: Route): map<Key, Route> {
    if key in c || |c| < MAX_LS_MAP_INFO then c[key := r] else map[key := r]
  }

  ghost function AbstractSubnets(c: map<Key, Route>, derived: bool, named: set<Key>): map<Key, Route> {
    if derived then c + (map k | k in named :: ByDerivation) else c - named
  }

  /** What the table amounts to: the names on its slots, old names included, and the routes of those in use.
      Which slots are in use need not be said: it follows. */
  datatype Memory = Memory(names: seq<Key>, routes: map<Key, Route>)

  /** A slot is in use if its name has a route and no slot in front of it has the same name. */
  predicate InUse(m: Memory, i: nat)
    requires i < |m.names|
  {
    m.names[i] in m.routes && m.names[i] !in m.names[..i]
  }

  /** The first slot from i on that is not in use. */
  function Vacant(m: Memory, i: nat): (v: nat)
    requires i <= |m.names|
    ensures i <= v <= |m.names|
    decreases |m.names| - i
  {
    if i == |m.names| || !InUse(m, i) then i else Vacant(m, i + 1)
  }

  function NamesAfter(m: Memory, key: Key): seq<Key> {
    var v := Vacant(m, 0);
    if key in m.routes then m.names
    else if v < |m.names| then m.names[v := key]
    else if |m.names| >= MAX_LS_MAP_INFO then [key]
    else m.names + [key]
  }

  /** The names that a subnets message is about: of each flagged subnet the first one. */
  ghost function NamedBy(names: seq<Key>, bits: Bitmap): set<Key> {
    set k | 0 <= k < |names| && FirstOfSubnet(names, k) && Flagged(bits, names[k].subnet) :: names[k]
  }

  ghost predicate FirstOfSubnet(names: seq<Key>, k: nat)
    requires k < |names|
  {
    forall j :: 0 <= j < k ==> names[j].subnet != names[k].subnet
  }

  ghost function MemoryStep(m: Memory, op: Op): Memory {
    match op
    case SetSubnets(derived, bits) => m.(routes := AbstractSubnets(m.routes, derived, NamedBy(m.names, bits)))
    case Clear => Memory(seq(|m.names|, _ => Key([], 0, 0)), map[])
    case _ =>
      var key := KeyOf(op.domain, op.subnet, op.node);
      Memory(NamesAfter(m, key), AbstractLearn(m.routes, key, RouteFor(NewsOf(op))))
  }

  ghost function MemoryRun(m: Memory, ops: seq<Op>): Memory
    decreases |ops|
  {
    if ops == [] then m else MemoryRun(MemoryStep(m, ops[0]), ops[1..])
  }

  /** No earlier slot, live or stale, has the key of a later live slot. */
  ghost predicate Apart(t: seq<Slot>, i: nat, j: nat)
    requires i < j < |t|
  {
    Live(t[j]) ==> KeyIn(t[i]) != KeyIn(t[j])
  }

  ghost predicate Inv(t: seq<Slot>) {
    |t| <= MAX_LS_MAP_INFO && forall i, j :: 0 <= i < j < |t| ==> Apart(t, i, j)
  }

  // ------------------------------------------------------------------
  // The cache is the map of the live slots
  // ------------------------------------------------------------------

  lemma InvPrefix(t: seq<Slot>)
    requires Inv(t) && t != []
    ensures Inv(t[..|t| - 1])
  {
    var r := t[..|t| - 1];
    forall i, j | 0 <= i < j < |r| ensures Apart(r, i, j) { assert Apart(t, i, j); }
  }

  lemma {:induction false} CacheHas(t: seq<Slot>, key: Key)
    requires Inv(t)
    ensures key in Cache(t) <==> First(t, LiveKey(key)) < |t|
    ensures key in Cache(t) ==> Cache(t)[key] == RouteOf(t[First(t, LiveKey(key))])
  {
    if t != [] {
      hide RouteOf;
      var r := t[..|t| - 1];
      InvPrefix(t);
      CacheHas(r, key);
      var f, g := First(t, LiveKey(key)), First(r, LiveKey(key));
      if g < |r| {
        assert Hits(t[g], LiveKey(key)) && Apart(t, g, |t| - 1);
        assert f == g;
      } else {
        assert forall j :: 0 <= j < |r| ==> !Hits(r[j], LiveKey(key)) && t[j] == r[j];
      }
    }
  }

  lemma {:induction false} CacheSize(t: seq<Slot>)
    requires Inv(t)
    ensures |Cache(t)| <= |t|
    ensures |Cache(t)| == |t| <==> First(t, Free) == |t|
  {
    if t != [] {
      var r, last := t[..|t| - 1], t[|t| - 1];
      InvPrefix(t);
      CacheSize(r);
      CacheHas(r, KeyIn(last));
      var f, g := First(t, Free), First(r, Free);
      if Live(last) {
        var h := First(r, LiveKey(KeyIn(last)));
        if h < |r| { assert Apart(t, h, |t| - 1); }
      }
      assert forall j :: 0 <= j < |r| ==> t[j] == r[j];
      if g < |r| { assert Hits(t[g], Free); }
    }
  }

  /** Two tables that hit alike for every key have the same cache. */
  lemma SameCache(t: seq<Slot>, c: map<Key, Route>)
    requires Inv(t)
    requires forall key :: key in c <==> First(t, LiveKey(key)) < |t|
    requires forall key :: key in c ==> c[key] == RouteOf(t[First(t, LiveKey(key))])
    ensures Cache(t) == c
  {
    forall key ensures key in Cache(t) <==> key in c
      ensures key in c ==> Cache(t)[key] == c[key]
    {
      CacheHas(t, key);
    }
  }

  // ------------------------------------------------------------------
  // Each operation keeps the invariant and moves the map as it should
  // ------------------------------------------------------------------

  lemma FreshHasKey(domain: Domain, subnet: byte, node: byte, n: News)
    ensures var s := Marked(FreshSlot(domain, subnet, node), n);
      Live(s) && KeyIn(s) == KeyOf(domain, subnet, node) && RouteOf(s) == RouteFor(n)
  {
    var d := Compared(domain);
    assert (d + seq(6 - |d|, _ => 0))[..|d|] == d;
  }

  /** Overwriting slot `i` with a live slot for a key that no other live slot has. */
  lemma WriteKeeps(t: seq<Slot>, i: nat, s: Slot)
    requires Inv(t) && i < |t| && Live(s)
    requires forall j :: 0 <= j < |t| && j != i ==> !Hits(t[j], LiveKey(KeyIn(s)))
    requires KeyIn(t[i]) == KeyIn(s) || forall j :: 0 <= j < i ==> Live(t[j])
    requires Live(t[i]) ==> KeyIn(t[i]) == KeyIn(s)
    requires forall j :: 0 <= j < i ==> KeyIn(t[j]) != KeyIn(s)
    ensures Inv(t[i := s]) && Cache(t[i := s]) == Cache(t)[KeyIn(s) := RouteOf(s)]
  {
    var t' := t[i := s];
    forall a, b | 0 <= a < b < |t| ensures Apart(t', a, b) {
      assert Apart(t, a, b);
      if a == i && Live(t[b]) { assert !Hits(t[b], LiveKey(KeyIn(s))); }
    }
    var c := Cache(t)[KeyIn(s) := RouteOf(s)];
    forall key ensures key in c <==> First(t', LiveKey(key)) < |t'|
      ensures key in c ==> c[key] == RouteOf(t'[First(t', LiveKey(key))])
    {
      CacheHas(t, key);
      var f := First(t, LiveKey(key));
      if key == KeyIn(s) {
        assert Hits(t'[i], LiveKey(key));
        assert forall j :: 0 <= j < i ==> t'[j] == t[j];
      } else {
        assert forall j :: 0 <= j < |t| ==> (Hits(t'[j], LiveKey(key)) <==> Hits(t[j], LiveKey(key)));
        var g := First(t', LiveKey(key));
        assert g == f;
      }
    }
    SameCache(t', c);
  }

  lemma AppendKeeps(t: seq<Slot>, s: Slot)
    requires Inv(t) && |t| < MAX_LS_MAP_INFO && Live(s)
    requires forall j :: 0 <= j < |t| ==> KeyIn(t[j]) != KeyIn(s)
    ensures Inv(t + [s]) && Cache(t + [s]) == Cache(t)[KeyIn(s) := RouteOf(s)]
  {
    var t' := t + [s];
    forall a, b | 0 <= a < b < |t'| ensures Apart(t', a, b) {
      if b < |t| { assert Apart(t, a, b); }
    }
    assert t'[..|t'| - 1] == t;
  }

  /** Learning an address changes the abstract map at its key only, or starts the map over when it holds
      50 other addresses. */
  lemma LearnRefines(t: seq<Slot>, domain: Domain, subnet: byte, node: byte, n: News)
    requires Inv(t)
    ensures var t' := Learn(t, domain, subnet, node, n);
      Inv(t') && Cache(t') == AbstractLearn(Cache(t), KeyOf(domain, subnet, node), RouteFor(n))
  {
    var key := KeyOf(domain, subnet, node);
    var i, j := First(t, LiveKey(key)), First(t, Free);
    var s := Marked(FreshSlot(domain, subnet, node), n);
    FreshHasKey(domain, subnet, node, n);
    hide FreshSlot, KeyOf;
    CacheHas(t, key);
    CacheSize(t);
    if i < |t| {
      forall k | 0 <= k < |t| && k != i ensures !Hits(t[k], LiveKey(key)) && (k < i ==> KeyIn(t[k]) != key) {
        assert k < i ==> Apart(t, k, i);
        assert i < k ==> Apart(t, i, k);
      }
      WriteKeeps(t, i, Marked(t[i], n));
    } else if j < |t| {
      forall k | 0 <= k < |t| ensures !Hits(t[k], LiveKey(key)) && (k < j ==> KeyIn(t[k]) != key) {
        assert k < j ==> !Hits(t[k], Free);
      }
      WriteKeeps(t, j, s);
    } else {
      forall k | 0 <= k < |t| ensures KeyIn(t[k]) != key { assert !Hits(t[k], Free) && !Hits(t[k], LiveKey(key)); }
      if |t| < MAX_LS_MAP_INFO {
        AppendKeeps(t, s);
      } else {
        AppendKeeps([], s);
        assert [] + [s] == [s];
      }
    }
  }

  // ------------------------------------------------------------------
  // Subnets messages
  // ------------------------------------------------------------------

  lemma TouchKeepsFirst(t: seq<Slot>, subnet: nat, derived: bool, other: nat)
    ensures First(Touch(t, subnet, derived), InSubnet(other)) == First(t, InSubnet(other))
  {
    var t' := Touch(t, subnet, derived);
    assert forall j :: 0 <= j < |t| ==> t'[j].subnetId == t[j].subnetId;
    assert forall j :: 0 <= j < |t| ==> (Hits(t'[j], InSubnet(other)) <==> Hits(t[j], InSubnet(other)));
  }

  /** A slot changes in a subnets message exactly if its subnet is flagged and no earlier slot, live or
      not, is of the same subnet. */
  lemma {:induction false} SubnetsAt(t: seq<Slot>, bits: Bitmap, derived: bool, from: nat, k: nat)
    requires from <= 256 && k < |t|
    ensures SubnetsFrom(t, bits, derived, from)[k] ==
      if from <= t[k].subnetId && Flagged(bits, t[k].subnetId) && First(t, InSubnet(t[k].subnetId)) == k
      then t[k].(state := SubnetState(derived)) else t[k]
    decreases 256 - from
  {
    if from < 256 {
      var t' := if Flagged(bits, from) then Touch(t, from, derived) else t;
      hide Flagged;
      SubnetsAt(t', bits, derived, from + 1, k);
      TouchKeepsFirst(t, from, derived, t[k].subnetId);
      assert t'[k].subnetId == t[k].subnetId;
    }
  }

  /** A subnets message sets or removes the named keys, and nothing else. */
  lemma SubnetsRefines(t: seq<Slot>, derived: bool, bits: Bitmap)
    requires Inv(t)
    ensures var op := SetSubnets(derived, bits);
      Inv(Step(t, op)) && Cache(Step(t, op)) == AbstractSubnets(Cache(t), derived, Named(t, bits))
  {
    var op := SetSubnets(derived, bits);
    var t', named := Step(t, op), Named(t, bits);
    forall k | 0 <= k < |t| ensures KeyIn(t'[k]) == KeyIn(t[k])
      ensures t'[k] == if ChangedBy(t, bits, k) then t[k].(state := SubnetState(derived)) else t[k]
    {
      SubnetsAt(t, bits, derived, 0, k);
    }
    hide Flagged, SubnetsFrom, Step;
    forall a, b | 0 <= a < b < |t| ensures Apart(t', a, b) {
      assert Apart(t, a, b);
      if ChangedBy(t, bits, b) { assert !Hits(t[a], InSubnet(t[b].subnetId)); }
    }
    var c := if derived then Cache(t) + (map k | k in named :: ByDerivation) else Cache(t) - named;
    forall key ensures key in c <==> First(t', LiveKey(key)) < |t'|
      ensures key in c ==> c[key] == RouteOf(t'[First(t', LiveKey(key))])
    {
      SubnetsKey(t, t', derived, bits, key);
    }
    hide Reset, ChangedBy, Named;
    SameCache(t', c);
    assert c == AbstractSubnets(Cache(t), derived, named);
  }

  ghost predicate ChangedBy(t: seq<Slot>, bits: Bitmap, k: nat)
    requires k < |t|
  {
    First(t, InSubnet(t[k].subnetId)) == k && Flagged(bits, t[k].subnetId)
  }

  ghost predicate Reset(t: seq<Slot>, t': seq<Slot>, derived: bool, bits: Bitmap) {
    |t'| == |t| && forall k :: 0 <= k < |t| ==>
      t'[k] == if ChangedBy(t, bits, k) then t[k].(state := SubnetState(derived)) else t[k]
  }

  /** The first slot of a flagged subnet is found live with its key exactly if the subnets were set. */
  lemma SubnetsChanged(t: seq<Slot>, t': seq<Slot>, derived: bool, bits: Bitmap, k: nat)
    requires Inv(t) && Inv(t') && Reset(t, t', derived, bits) && k < |t| && ChangedBy(t, bits, k)
    ensures First(t', LiveKey(KeyIn(t[k]))) == if derived then k else |t|
  {
    hide Flagged;
    var key := KeyIn(t[k]);
    forall j | 0 <= j < |t| && (derived ==> j < k) ensures !Hits(t'[j], LiveKey(key)) {
      assert j < k ==> !Hits(t[j], InSubnet(key.subnet));
      assert k < j ==> Apart(t, k, j);
    }
    assert derived ==> Hits(t'[k], LiveKey(key));
  }

  lemma SubnetsUnchanged(t: seq<Slot>, t': seq<Slot>, derived: bool, bits: Bitmap, key: Key)
    requires Inv(t) && Reset(t, t', derived, bits)
    requires forall k :: 0 <= k < |t| && KeyIn(t[k]) == key ==> !ChangedBy(t, bits, k)
    ensures var f := First(t', LiveKey(key));
      First(t, LiveKey(key)) == f && (f < |t| ==> t'[f] == t[f])
  {
    hide ChangedBy;
    forall k | 0 <= k < |t| ensures Hits(t'[k], LiveKey(key)) <==> Hits(t[k], LiveKey(key)) {}
  }

  lemma SubnetsKey(t: seq<Slot>, t': seq<Slot>, derived: bool, bits: Bitmap, key: Key)
    requires Inv(t) && Inv(t') && Reset(t, t', derived, bits)
    ensures var c, named, f := Cache(t), Named(t, bits), First(t', LiveKey(key));
      && (f < |t'| <==> if derived then key in named || key in c else key in c && key !in named)
      && (f < |t'| ==> RouteOf(t'[f]) == if key in named then ByDerivation else if key in c then c[key] else ByDerivation)
  {
    hide Inv, Flagged;
    CacheHas(t, key);
    var named := Named(t, bits);
    if key in named {
      var k :| 0 <= k < |t| && ChangedBy(t, bits, k) && KeyIn(t[k]) == key;
      SubnetsChanged(t, t', derived, bits, k);
    } else {
      forall k | 0 <= k < |t| && KeyIn(t[k]) == key ensures !ChangedBy(t, bits, k) {}
      SubnetsUnchanged(t, t', derived, bits, key);
    }
  }

  // ------------------------------------------------------------------
  // Runs
  // ------------------------------------------------------------------

  ghost function Names(t: seq<Slot>): (n: seq<Key>)
    ensures |n| == |t|
  {
    seq(|t|, i requires 0 <= i < |t| => KeyIn(t[i]))
  }

  ghost function Remembered(t: seq<Slot>): Memory {
    Memory(Names(t), Cache(t))
  }

  lemma InUseIff(t: seq<Slot>, i: nat)
    requires Inv(t) && i < |t|
    ensures InUse(Remembered(t), i) <==> Live(t[i])
  {
    var key, names := KeyIn(t[i]), Names(t);
    CacheHas(t, key);
    var f := First(t, LiveKey(key));
    if Live(t[i]) {
      assert Hits(t[i], LiveKey(key));
      forall j | 0 <= j < i ensures names[j] != key { assert Apart(t, j, i); }
    } else {
      forall j | i < j < |t| ensures !Hits(t[j], LiveKey(key)) { assert Apart(t, i, j); }
      if f < i { assert names[..i][f] == key; }
    }
  }

  lemma {:induction false} VacantIsFree(t: seq<Slot>, i: nat)
    requires Inv(t) && i <= First(t, Free)
    ensures Vacant(Remembered(t), i) == First(t, Free)
    decreases |t| - i
  {
    if i < |t| {
      InUseIff(t, i);
      if i < First(t, Free) {
        assert !Hits(t[i], Free);
        VacantIsFree(t, i + 1);
      } else {
        assert Hits(t[i], Free);
      }
    }
  }

  lemma FirstOfSubnetIff(t: seq<Slot>, k: nat)
    requires k < |t|
    ensures FirstOfSubnet(Names(t), k) <==> First(t, InSubnet(t[k].subnetId)) == k
  {
    var names, subnet := Names(t), t[k].subnetId;
    assert Hits(t[k], InSubnet(subnet));
    assert forall j :: 0 <= j < |t| ==> (Hits(t[j], InSubnet(subnet)) <==> names[j].subnet == subnet);
    var f := First(t, InSubnet(subnet));
    if f < k { assert names[f].subnet == subnet; }
  }

  lemma NamedIsNamedBy(t: seq<Slot>, bits: Bitmap)
    ensures Named(t, bits) == NamedBy(Names(t), bits)
  {
    var names := Names(t);
    hide Flagged;
    forall k | 0 <= k < |t|
      ensures names[k] == KeyIn(t[k]) && names[k].subnet == t[k].subnetId
      ensures FirstOfSubnet(names, k) <==> First(t, InSubnet(t[k].subnetId)) == k
    {
      FirstOfSubnetIff(t, k);
    }
    hide FirstOfSubnet, First, KeyIn, Names;
    forall key ensures key in Named(t, bits) <==> key in NamedBy(names, bits) {
      if key in Named(t, bits) {
        var k :| 0 <= k < |t| && First(t, InSubnet(t[k].subnetId)) == k && Flagged(bits, t[k].subnetId) && KeyIn(t[k]) == key;
        assert FirstOfSubnet(names, k) && names[k] == key;
      }
      if key in NamedBy(names, bits) {
        var k :| 0 <= k < |names| && FirstOfSubnet(names, k) && Flagged(bits, names[k].subnet) && names[k] == key;
        assert First(t, InSubnet(t[k].subnetId)) == k;
      }
    }
  }

  lemma LearnNames(t: seq<Slot>, domain: Domain, subnet: byte, node: byte, n: News)
    requires Inv(t)
    ensures Names(Learn(t, domain, subnet, node, n)) == NamesAfter(Remembered(t), KeyOf(domain, subnet, node))
  {
    var key := KeyOf(domain, subnet, node);
    CacheHas(t, key);
    VacantIsFree(t, 0);
    FreshHasKey(domain, subnet, node, n);
    hide FreshSlot, KeyOf, Vacant;
    var t' := Learn(t, domain, subnet, node, n);
    assert Names(t') == NamesAfter(Remembered(t), key);
  }

  lemma SubnetsNames(t: seq<Slot>, derived: bool, bits: Bitmap)
    ensures Names(Step(t, SetSubnets(derived, bits))) == Names(t)
  {
    var t' := Step(t, SetSubnets(derived, bits));
    forall k | 0 <= k < |t| ensures KeyIn(t'[k]) == KeyIn(t[k]) {
      SubnetsAt(t, bits, derived, 0, k);
    }
  }

  /** One operation on the table is one on what it amounts to, which knows nothing of slot states. */
  lemma StepRefines(t: seq<Slot>, op: Op)
    requires Inv(t)
    ensures Inv(Step(t, op)) && Remembered(Step(t, op)) == MemoryStep(Remembered(t), op)
  {
    match op
    case SetSubnets(derived, bits) =>
      SubnetsRefines(t, derived, bits);
      SubnetsNames(t, derived, bits);
      NamedIsNamedBy(t, bits);
    case Clear =>
      var t' := Step(t, op);
      forall a, b | 0 <= a < b < |t'| ensures Apart(t', a, b) {}
      SameCache(t', map[]);
      assert Names(t') == seq(|t|, _ => Key([], 0, 0));
    case _ =>
      LearnRefines(t, op.domain, op.subnet, op.node, NewsOf(op));
      LearnNames(t, op.domain, op.subnet, op.node, NewsOf(op));
  }

  /** Over every run, live entries have distinct keys, no earlier slot (not even a stale one, which a
      subnets message might revive) has the key of a later live slot, and the table amounts to the memory that
      the same operations make of the memory at the beginning. */
  lemma {:induction false} RunRefines(t: seq<Slot>, ops: seq<Op>)
    requires Inv(t)
    ensures Inv(Run(t, ops)) && Remembered(Run(t, ops)) == MemoryRun(Remembered(t), ops)
    decreases |ops|
  {
    if ops != [] {
      StepRefines(t, ops[0]);
      RunRefines(Step(t, ops[0]), ops[1..]);
    }
  }

  /** Taking back subnets is incomplete: afterwards no flagged subnet has a live entry exactly if every live
      entry of a flagged subnet was the first slot of its subnet, live or stale. */
  lemma SubnetsForgottenIff(t: seq<Slot>, bits: Bitmap)
    ensures var t' := Step(t, SetSubnets(false, bits));
      (forall k :: 0 <= k < |t'| ==> !(Live(t'[k]) && Flagged(bits, t'[k].subnetId))) <==>
      (forall k :: 0 <= k < |t| ==> Live(t[k]) && Flagged(bits, t[k].subnetId) ==> First(t, InSubnet(t[k].subnetId)) == k)
  {
    var t' := Step(t, SetSubnets(false, bits));
    forall k | 0 <= k < |t|
      ensures t'[k] == if ChangedBy(t, bits, k) then t[k].(state := Available) else t[k]
    {
      SubnetsAt(t, bits, false, 0, k);
    }
    hide Flagged, SubnetsFrom, Step, First;
    forall k | 0 <= k < |t|
      ensures Live(t'[k]) && Flagged(bits, t'[k].subnetId) <==>
        Live(t[k]) && Flagged(bits, t[k].subnetId) && First(t, InSubnet(t[k].subnetId)) != k
    {
    }
  }

  // ------------------------------------------------------------------
  // Where messages go
  // ------------------------------------------------------------------

  /** The IP address that a subnet/node message is sent to; an unknown address goes to its whole subnet. */
  function Destination(c: map<Key, Route>, domain: seq<byte>, subnet: byte, node: byte): Ip {
    var key := KeyOf(domain, subnet, node);
    if key !in c then MulticastAddress(false, subnet)
    else match c[key]
      case ByDerivation => DerivedAddress(domain, subnet, node)
      case At(ip) => ip
  }

  /** After an address is set, the cache has it, as derived exactly if it was set so. */
  lemma SetIsKnown(t: seq<Slot>, op: Op)
    requires Inv(t) && (op.SetArbitrary? || op.SetDerived?)
    ensures var c, key := Cache(Step(t, op)), KeyOf(op.domain, op.subnet, op.node);
      key in c && (c[key].ByDerivation? <==> op.SetDerived?)
  {
    hide Inv, Learn, Cache, KeyOf;
    LearnRefines(t, op.domain, op.subnet, op.node, NewsOf(op));
  }

  /** After an address is set, messages for the same LON address go there. */
  lemma SetReaches(t: seq<Slot>, op: Op, domain: seq<byte>, subnet: byte, node: byte)
    requires Inv(t) && (op.SetArbitrary? || op.SetDerived?)
    requires KeyOf(op.domain, op.subnet, op.node) == KeyOf(domain, subnet, node)
    ensures Destination(Cache(Step(t, op)), domain, subnet, node)
      == if op.SetArbitrary? then op.ip else DerivedAddress(domain, subnet, node)
  {
    LearnRefines(t, op.domain, op.subnet, op.node, NewsOf(op));
    hide Inv, Learn, Cache, KeyOf, DerivedAddress;
  }

  /** An announced address that is taken for the derived one and is not: a 10.x address of a 1-byte domain
      is not compared with the domain, and subnet or node 0 derive an address of the zero-length domain. */
  predicate Misjudged(domain: seq<byte>, subnet: byte, node: byte, ip: Ip) {
    ip[2] == subnet && ip[3] == node
    && ((|domain| == 1 && ip[0] == 10 && (ip[1] != domain[0] || subnet == 0 || node == 0))
        || (|domain| == 3 && ip[0] == domain[0] && ip[1] == domain[1] && (subnet == 0 || node == 0)
            && !(ip[0] == 192 && ip[1] == 168)))
  }

  lemma SameIp(a: Ip, b: Ip)
    ensures a == b <==> a[0] == b[0] && a[1] == b[1] && a[2] == b[2] && a[3] == b[3]
  {}

  lemma MisjudgedIff(domain: Domain, subnet: byte, node: byte, ip: Ip)
    requires Mappable(domain) && node < 128
    ensures Misjudged(domain, subnet, node, ip) <==>
      Announced(domain, subnet, node, ip).NowDerivedAt? && DerivedAddress(domain, subnet, node) != ip
  {
    SameIp(DerivedAddress(domain, subnet, node), ip);
  }

  /** An announcement makes the cache send to the address it came from, exactly unless it is misjudged. */
  lemma AnnouncementReachesIff(t: seq<Slot>, domain: Domain, subnet: byte, node: byte, ip: Ip)
    requires Inv(t) && Mappable(domain) && node < 128
    ensures Destination(Cache(Step(t, Update(domain, subnet, node, ip))), domain, subnet, node) == ip
      <==> !Misjudged(domain, subnet, node, ip)
  {
    var n := Announced(domain, subnet, node, ip);
    LearnRefines(t, domain, subnet, node, n);
    MisjudgedIff(domain, subnet, node, ip);
    assert n.NowDerivedAt? || n == NowArbitrary(ip);
    hide Inv, Learn, Cache, Misjudged, DerivedAddress, Announced, KeyOf;
  }

  // ------------------------------------------------------------------
  // The code
  // ------------------------------------------------------------------

  /** The comparison of the scan loop. */
  lemma SameKeyIff(s: Slot, domain: Domain, subnet: byte, node: byte)
    ensures var d := Compared(domain);
      Hits(s, LiveKey(KeyOf(domain, subnet, node))) <==>
        Live(s) && s.domainLen == |d| && s.domainId[..|d|] == d && s.subnetId == subnet && s.nodeId == node % 128
  {
    assert |s.domainId[..s.domainLen]| == s.domainLen;
  }

  /** The table after making an entry for an address that has none, and where that entry is. */
  ghost predicate MadeAt(t: seq<Slot>, domain: Domain, subnet: byte, node: byte, t': seq<Slot>, at: nat) {
    var j, s := First(t, Free), FreshSlot(domain, subnet, node);
    if j < |t| then at == j && t' == t[j := s]
    else if |t| >= MAX_LS_MAP_INFO then at == 0 && t' == [s]
    else at == |t| && t' == t + [s]
  }

  lemma MarkMade(t: seq<Slot>, domain: Domain, subnet: byte, node: byte, n: News, t': seq<Slot>, at: nat)
    requires First(t, LiveKey(KeyOf(domain, subnet, node))) == |t|
    requires MadeAt(t, domain, subnet, node, t', at)
    ensures at < |t'| && t'[at := Marked(t'[at], n)] == Learn(t, domain, subnet, node, n)
  {
    hide FreshSlot, Marked;
  }

  lemma LearnKnown(t: seq<Slot>, domain: Domain, subnet: byte, node: byte, n: News)
    ensures var i := First(t, LiveKey(KeyOf(domain, subnet, node)));
      i < |t| ==> Learn(t, domain, subnet, node, n) == t[i := Marked(t[i], n)]
  {}

  class MappingTable {
    const lsMapInfo: array<Slot>
    var numMapEntries: nat

    ghost predicate Valid()
      reads this, lsMapInfo
    {
      Counted() && Inv(lsMapInfo[..numMapEntries])
    }

    ghost predicate Counted()
      reads this
    {
      lsMapInfo.Length == MAX_LS_MAP_INFO && numMapEntries <= MAX_LS_MAP_INFO
    }

    ghost function Table(): seq<Slot>
      requires numMapEntries <= lsMapInfo.Length
      reads this, lsMapInfo
    {
      lsMapInfo[..numMapEntries]
    }

    constructor ()
      ensures Valid() && fresh(lsMapInfo) && Table() == []
    {
      numMapEntries := 0;
      lsMapInfo := new Slot[MAX_LS_MAP_INFO](_ => ZEROED);
    }

    /** `findMappingInfo`: the slot of a live entry, or -1. */
    method FindMappingInfo(domain: Domain, subnet: byte, node: byte) returns (found: int)
      requires Valid()
      ensures var i := First(Table(), LiveKey(KeyOf(domain, subnet, node)));
        found == if i < |Table()| then i else -1
      ensures found >= 0 <==> KeyOf(domain, subnet, node) in Cache(Table())
    {
      ghost var t, key := Table(), KeyOf(domain, subnet, node);
      CacheHas(t, key);
      hide Inv, Cache, Hits, KeyOf;
      var compared := if |domain| == 3 then domain[..2] else domain;
      var i := 0;
      while i < numMapEntries
        invariant i <= numMapEntries
        invariant forall j :: 0 <= j < i ==> !Hits(t[j], LiveKey(key))
      {
        assert t[i] == lsMapInfo[i];
        SameKeyIff(t[i], domain, subnet, node);
        if lsMapInfo[i].state != Available && lsMapInfo[i].domainLen == |compared|
           && lsMapInfo[i].domainId[..|compared|] == compared && lsMapInfo[i].subnetId == subnet
           && lsMapInfo[i].nodeId == node % 128 {
          return i;
        }
        i := i + 1;
      }
      return -1;
    }

    /** `findAvailMappingInfo`: a slot filled in for the address, with its state still to be set. */
    method FindAvailMappingInfo(domain: Domain, subnet: byte, node: byte) returns (at: nat)
      requires Valid()
      modifies this`numMapEntries, lsMapInfo
      ensures numMapEntries <= MAX_LS_MAP_INFO && at < numMapEntries
      ensures MadeAt(old(Table()), domain, subnet, node, Table(), at)
    {
      ghost var t := Table();
      var compared := if |domain| == 3 then domain[..2] else domain;
      var i := 0;
      while i < numMapEntries && lsMapInfo[i].state != Available
        invariant i <= numMapEntries
        invariant forall j :: 0 <= j < i ==> !Hits(t[j], Free)
      {
        assert t[i] == lsMapInfo[i];
        i := i + 1;
      }
      if i < numMapEntries {
        assert Hits(t[i], Free);
      } else {
        if numMapEntries >= MAX_LS_MAP_INFO { numMapEntries := 0; }
        i := numMapEntries;
        numMapEntries := numMapEntries + 1;
      }
      lsMapInfo[i] := Slot(Available, compared + seq(6 - |compared|, _ => 0), |compared|, subnet, node % 128, [0, 0, 0, 0]);
      at := i;
    }

    /** Finds or makes the entry and writes into it. */
    method Record(domain: Domain, subnet: byte, node: byte, n: News)
      requires Valid()
      modifies this`numMapEntries, lsMapInfo
      ensures Valid() && Table() == Learn(old(Table()), domain, subnet, node, n)
      ensures Cache(Table()) == AbstractLearn(old(Cache(Table())), KeyOf(domain, subnet, node), RouteFor(n))
    {
      LearnRefines(Table(), domain, subnet, node, n);
      ghost var t := Table();
      hide Inv, Cache, FreshSlot, MadeAt, Learn, Marked, RouteFor, AbstractLearn, KeyOf;
      var i := FindMappingInfo(domain, subnet, node);
      if i < 0 {
        i := FindAvailMappingInfo(domain, subnet, node);
        MarkMade(t, domain, subnet, node, n, Table(), i);
      } else {
        LearnKnown(t, domain, subnet, node, n);
      }
      ghost var made := Table();
      lsMapInfo[i] := Marked(lsMapInfo[i], n);
      assert Table() == made[i := Marked(made[i], n)];
    }

    /** `Ipv4SetArbitraryAddressMapping` */
    method SetArbitraryAddressMapping(domain: Domain, subnet: byte, node: byte, ip: Ip)
      requires Valid()
      modifies this`numMapEntries, lsMapInfo
      ensures Valid() && Table() == Step(old(Table()), SetArbitrary(domain, subnet, node, ip))
      ensures Cache(Table()) == AbstractLearn(old(Cache(Table())), KeyOf(domain, subnet, node), At(ip))
    {
      Record(domain, subnet, node, NowArbitrary(ip));
    }

    /** `Ipv4SetDerivedAddressMapping` */
    method SetDerivedAddressMapping(domain: Domain, subnet: byte, node: byte)
      requires Valid()
      modifies this`numMapEntries, lsMapInfo
      ensures Valid() && Table() == Step(old(Table()), SetDerived(domain, subnet, node))
      ensures Cache(Table()) == AbstractLearn(old(Cache(Table())), KeyOf(domain, subnet, node), ByDerivation)
    {
      Record(domain, subnet, node, NowDerived);
    }

    /** `UpdateMapping` */
    method UpdateMapping(domain: Domain, subnet: byte, node: byte, ip: Ip)
      requires Valid()
      modifies this`numMapEntries, lsMapInfo
      ensures Valid() && Table() == Step(old(Table()), Update(domain, subnet, node, ip))
    {
      var derived := false;
      if ip[2] == subnet && ip[3] == node {
        derived := (|domain| == 0 && ip[0] == 0xc0 && ip[1] == 0xa8) || (|domain| == 1 && ip[0] == 0x0A)
          || (|domain| == 3 && ip[0] == domain[0] && ip[1] == domain[1]);
      }
      Record(domain, subnet, node, if derived then NowDerivedAt(ip) else NowArbitrary(ip));
    }

    /** The inner loop for one flagged subnet. */
    method TouchFirst(derived: bool, subnet: nat)
      requires Counted()
      modifies lsMapInfo
      ensures Table() == Touch(old(Table()), subnet, derived)
    {
      ghost var t := Table();
      var k := 0;
      while k < numMapEntries
        invariant k <= numMapEntries
        invariant lsMapInfo[..] == old(lsMapInfo[..])
        invariant forall j :: 0 <= j < k ==> !Hits(t[j], InSubnet(subnet))
      {
        assert t[k] == lsMapInfo[k];
        if lsMapInfo[k].subnetId == subnet {
          assert Hits(t[k], InSubnet(subnet));
          lsMapInfo[k] := lsMapInfo[k].(state := if derived then Derived else Available);
          break;
        }
        k := k + 1;
      }
    }
    /** One bit of a subnets message. */
    method ReadBit(derived: bool, bits: Bitmap, i: nat, j: nat)
      requires Counted() && i < 32 && j < 8
      modifies lsMapInfo
      ensures SubnetsFrom(Table(), bits, derived, 8 * i + j + 1) == old(SubnetsFrom(Table(), bits, derived, 8 * i + j))
    {
      ghost var t := Table();
      assert (8 * i + j) / 8 == i && (8 * i + j) % 8 == j;
      if bits[i] / Weight(j) % 2 == 1 {
        TouchFirst(derived, 8 * i + j);
      }
      assert Table() == if Flagged(bits, 8 * i + j) then Touch(t, 8 * i + j, derived) else t;
    }

    method ReadByte(derived: bool, bits: Bitmap, i: nat)
      requires Counted() && i < 32
      modifies lsMapInfo
      ensures SubnetsFrom(Table(), bits, derived, 8 * i + 8) == old(SubnetsFrom(Table(), bits, derived, 8 * i))
    {
      var j := 0;
      while j < 8
        invariant 0 <= j <= 8
        invariant SubnetsFrom(Table(), bits, derived, 8 * i + j) == old(SubnetsFrom(Table(), bits, derived, 8 * i))
      {
        ReadBit(derived, bits, i, j);
        j := j + 1;
      }
    }

    /** `Ipv4SetDerivedSubnetsMapping` */
    method SetDerivedSubnetsMapping(derived: bool, bits: Bitmap)
      requires Valid()
      modifies lsMapInfo
      ensures Valid() && Table() == Step(old(Table()), SetSubnets(derived, bits))
      ensures Cache(Table()) == AbstractSubnets(old(Cache(Table())), derived, Named(old(Table()), bits))
    {
      SubnetsRefines(Table(), derived, bits);
      hide Inv, Cache, Named, AbstractSubnets;
      var i := 0;
      while i < 32
        invariant 0 <= i <= 32
        invariant SubnetsFrom(Table(), bits, derived, 8 * i) == old(SubnetsFrom(Table(), bits, derived, 0))
      {
        ReadByte(derived, bits, i);
        i := i + 1;
      }
    }

    /** `ClearMapping`: the entries are zeroed, but stay counted. */
    method ClearMapping()
      requires Valid()
      modifies lsMapInfo
      ensures Valid() && Table() == Step(old(Table()), Clear) && Cache(Table()) == map[]
    {
      StepRefines(Table(), Clear);
      var i := 0;
      while i < numMapEntries
        invariant i <= numMapEntries
        invariant forall k :: 0 <= k < i ==> lsMapInfo[k] == ZEROED
      {
        lsMapInfo[i] := ZEROED;
        i := i + 1;
      }
      assert Table() == Step(old(Table()), Clear);
    }
  }
}
