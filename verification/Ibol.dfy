/** The Interchange Byte Order List of lcs_app.c: a small bytecode that copies and byte-swaps between
    the host image and the network image of a datapoint. */
module Ibol {
  import opened Bytes

  const IBOL_FINISH: byte := 0xFF
  const MAX_STOP_OFFSET := 0xFFFF

  // ------------------------------------------------------------------
  // Programs
  // ------------------------------------------------------------------

  /** `count` elements of `size` bytes each, starting at network offset `ndo`. */
  datatype Instr = Instr(ndo: nat, size: nat, count: nat)

  /** The host bytes of one instruction. */
  function Span(i: Instr): nat {
    i.size * i.count
  }

  /** An instruction is three bytes, or four when the offset needs the long form. */
  function Width(prog: seq<byte>, i: nat): nat
    requires i < |prog|
  {
    if prog[i] >= 0x80 then 4 else 3
  }

  function InstrAt(prog: seq<byte>, i: nat): Instr
    requires i < |prog| && i + Width(prog, i) <= |prog|
  {
    if prog[i] >= 0x80 then Instr((prog[i] as int - 0x80) * 256 + prog[i + 1], prog[i + 2], prog[i + 3])
    else Instr(prog[i], prog[i + 1], prog[i + 2])
  }

  /** From position i on, the program runs to its end mark without leaving the sequence. */
  ghost predicate WellFormed(prog: seq<byte>, i: nat)
    decreases |prog| - i
  {
    && i < |prog|
    && (prog[i] == IBOL_FINISH ||
        (i + Width(prog, i) < |prog| && WellFormed(prog, i + Width(prog, i))))
  }

  ghost function Parse(prog: seq<byte>, i: nat): seq<Instr>
    requires WellFormed(prog, i)
    decreases |prog| - i
  {
    if prog[i] == IBOL_FINISH then [] else [InstrAt(prog, i)] + Parse(prog, i + Width(prog, i))
  }

  // ------------------------------------------------------------------
  // What a program means: for every host byte, its network position
  // ------------------------------------------------------------------

  /** One element, most significant byte first on the network and last on the host. */
  ghost function ElementMap(ndo: nat, size: nat): (m: seq<nat>)
    ensures |m| == size
  {
    seq(size, h requires 0 <= h < size => ndo + (size - 1 - h))
  }

  ghost function InstrMap(ndo: nat, size: nat, count: nat): seq<nat>
    decreases count
  {
    if count == 0 then [] else ElementMap(ndo, size) + InstrMap(ndo + size, size, count - 1)
  }

  ghost function HostToNet(instrs: seq<Instr>): seq<nat> {
    if instrs == [] then []
    else InstrMap(instrs[0].ndo, instrs[0].size, instrs[0].count) + HostToNet(instrs[1..])
  }

  lemma {:induction false} InstrMapLength(ndo: nat, size: nat, count: nat)
    ensures |InstrMap(ndo, size, count)| == size * count
    decreases count
  {
    if count > 0 {
      InstrMapLength(ndo + size, size, count - 1);
      assert size * count == size + size * (count - 1);
    }
  }

  /** Within an instruction the bytes of each element are turned around, and the elements stay in order. */
  lemma {:induction false} InstrMapAt(ndo: nat, size: nat, count: nat, e: nat, h: nat)
    requires e < count && h < size
    ensures e * size + h < |InstrMap(ndo, size, count)|
    ensures InstrMap(ndo, size, count)[e * size + h] == ndo + e * size + (size - 1 - h)
    decreases count
  {
    InstrMapLength(ndo, size, count);
    InstrMapLength(ndo + size, size, count - 1);
    if e > 0 {
      InstrMapAt(ndo + size, size, count - 1, e - 1, h);
      assert e * size == size + (e - 1) * size;
    }
    assert InstrMap(ndo, size, count) == ElementMap(ndo, size) + InstrMap(ndo + size, size, count - 1);
  }

  /** Byte h of element e among the host bytes of an instruction, and where the instruction has it on the
      network: most significant byte first there, last on the host. */
  function HostSpot(i: Instr, e: nat, h: nat): nat {
    e * i.size + h
  }

  function NetSpot(i: Instr, e: nat, h: nat): nat
    requires h < i.size
  {
    i.ndo + e * i.size + (i.size - 1 - h)
  }

  /** The host bytes in front of instruction k. */
  function HostStart(instrs: seq<Instr>, k: nat): nat
    requires k <= |instrs|
  {
    if k == 0 then 0 else Span(instrs[0]) + HostStart(instrs[1..], k - 1)
  }

  lemma SpotInInstr(i: Instr, e: nat, h: nat)
    requires e < i.count && h < i.size
    ensures |InstrMap(i.ndo, i.size, i.count)| == Span(i) && HostSpot(i, e, h) < Span(i)
    ensures InstrMap(i.ndo, i.size, i.count)[HostSpot(i, e, h)] == NetSpot(i, e, h)
  {
    InstrMapLength(i.ndo, i.size, i.count);
    InstrMapAt(i.ndo, i.size, i.count, e, h);
  }

  /** Where host byte h of element e of instruction k is found on the network. */
  lemma {:induction false} HostToNetAt(instrs: seq<Instr>, k: nat, e: nat, h: nat)
    requires k < |instrs| && e < instrs[k].count && h < instrs[k].size
    ensures var at := HostStart(instrs, k) + HostSpot(instrs[k], e, h);
      at < |HostToNet(instrs)| && HostToNet(instrs)[at] == NetSpot(instrs[k], e, h)
    decreases k
  {
    hide InstrMap, HostSpot, NetSpot;
    if k == 0 {
      SpotInInstr(instrs[0], e, h);
    } else {
      InstrMapLength(instrs[0].ndo, instrs[0].size, instrs[0].count);
      assert |InstrMap(instrs[0].ndo, instrs[0].size, instrs[0].count)| == Span(instrs[0]);
      hide Span;
      HostToNetAt(instrs[1..], k - 1, e, h);
    }
  }

  // ------------------------------------------------------------------
  // Writing programs
  // ------------------------------------------------------------------

  /** An instruction that fits the format: an offset below 0x7F00 (the long form has 7 bits for the high byte, and
      all ones are the end mark), and a byte for each of size and count. */
  predicate Writable(i: Instr) {
    i.ndo < 0x7F00 && i.size < 256 && i.count < 256
  }

  /** The offset, in one byte below 0x80 and otherwise marked and high byte first, the element size, and the
      number of elements. */
  function InstrBytes(i: Instr): seq<byte>
    requires Writable(i)
  {
    (if i.ndo < 0x80 then [i.ndo] else [0x80 + i.ndo / 256, i.ndo % 256]) + [i.size, i.count]
  }

  function Program(instrs: seq<Instr>): seq<byte>
    requires forall k :: 0 <= k < |instrs| ==> Writable(instrs[k])
  {
    if instrs == [] then [IBOL_FINISH] else InstrBytes(instrs[0]) + Program(instrs[1..])
  }

  lemma InstrReadsBack(front: seq<byte>, i: Instr, rest: seq<byte>)
    requires Writable(i)
    ensures var p := front + (InstrBytes(i) + rest);
      && |front| < |p| && p[|front|] != IBOL_FINISH && Width(p, |front|) == |InstrBytes(i)|
      && |front| + Width(p, |front|) <= |p| && InstrAt(p, |front|) == i
  {}

  /** A program that was written for a list of instructions is read as that list, wherever it is. */
  lemma {:induction false} ProgramReadsBack(front: seq<byte>, instrs: seq<Instr>)
    requires forall k :: 0 <= k < |instrs| ==> Writable(instrs[k])
    ensures WellFormed(front + Program(instrs), |front|) && Parse(front + Program(instrs), |front|) == instrs
    decreases |instrs|
  {
    if instrs != [] {
      var first, rest := InstrBytes(instrs[0]), Program(instrs[1..]);
      InstrReadsBack(front, instrs[0], rest);
      ProgramReadsBack(front + first, instrs[1..]);
      assert front + (first + rest) == front + first + rest;
      assert rest != [] by { hide InstrBytes; }
      hide InstrBytes, InstrAt;
    }
  }

  /** So the host image that the program of a list of instructions reads holds, element by element, the bytes of
      the network image in the opposite order. */
  lemma ProgramSwaps(instrs: seq<Instr>, net: seq<byte>, k: nat, e: nat, h: nat)
    requires forall j :: 0 <= j < |instrs| ==> Writable(instrs[j])
    requires k < |instrs| && e < instrs[k].count && h < instrs[k].size
    requires forall j :: 0 <= j < |HostToNet(instrs)| ==> HostToNet(instrs)[j] < |net|
    ensures WellFormed(Program(instrs), 0) && HostToNet(Parse(Program(instrs), 0)) == HostToNet(instrs)
    ensures var host, at := Decode(net, HostToNet(instrs)), HostStart(instrs, k) + HostSpot(instrs[k], e, h);
      at < |host| && NetSpot(instrs[k], e, h) < |net| && host[at] == net[NetSpot(instrs[k], e, h)]
  {
    hide HostToNet, Parse, Program, HostStart, HostSpot, NetSpot, WellFormed;
    assert [] + Program(instrs) == Program(instrs);
    ProgramReadsBack([], instrs);
    HostToNetAt(instrs, k, e, h);
  }

  /** Instructions of one-byte elements are plain copies. */
  lemma {:induction false} ByteInstrMap(ndo: nat, count: nat)
    ensures InstrMap(ndo, 1, count) == seq(count, k requires 0 <= k < count => ndo + k)
    decreases count
  {
    if count > 0 {
      ByteInstrMap(ndo + 1, count - 1);
      assert ElementMap(ndo, 1) == [ndo];
    }
  }

  ghost predicate InRange(pos: seq<nat>, hostLen: nat, netLen: nat) {
    |pos| <= hostLen <= 0xFFFF && netLen <= 0xFFFF && forall h :: 0 <= h < |pos| ==> pos[h] < netLen
  }

  /** The host image read from a network image. */
  ghost function Decode(net: seq<byte>, pos: seq<nat>): (host: seq<byte>)
    requires forall h :: 0 <= h < |pos| ==> pos[h] < |net|
    ensures |host| == |pos|
    ensures forall h :: 0 <= h < |pos| ==> host[h] == net[pos[h]]
  {
    seq(|pos|, h requires 0 <= h < |pos| => net[pos[h]])
  }

  /** The network image after the first k host bytes have been written over it, in host order. */
  ghost function Encode(net: seq<byte>, host: seq<byte>, pos: seq<nat>, k: nat): (r: seq<byte>)
    requires k <= |pos| <= |host| && forall h :: 0 <= h < |pos| ==> pos[h] < |net|
    ensures |r| == |net|
  {
    if k == 0 then net else Encode(net, host, pos, k - 1)[pos[k - 1] := host[k - 1]]
  }

  /** The last host byte before k that is written to network position p, or -1. */
  ghost function Writer(pos: seq<nat>, k: nat, p: nat): (w: int)
    requires k <= |pos|
    ensures -1 <= w < k
    ensures w >= 0 ==> pos[w] == p
    ensures forall h :: w < h < k ==> pos[h] != p
  {
    if k == 0 then -1 else if pos[k - 1] == p then k - 1 else Writer(pos, k - 1, p)
  }

  lemma {:induction false} EncodeAt(net: seq<byte>, host: seq<byte>, pos: seq<nat>, k: nat, p: nat)
    requires k <= |pos| <= |host| && (forall h :: 0 <= h < |pos| ==> pos[h] < |net|) && p < |net|
    ensures Encode(net, host, pos, k)[p] == if Writer(pos, k, p) < 0 then net[p] else host[Writer(pos, k, p)]
  {
    if k > 0 { EncodeAt(net, host, pos, k - 1, p); }
  }

  // ------------------------------------------------------------------
  // Round trip
  // ------------------------------------------------------------------

  ghost predicate Injective(pos: seq<nat>) {
    forall a, b :: 0 <= a < b < |pos| ==> pos[a] != pos[b]
  }

  ghost predicate Within(pos: seq<nat>, host: seq<byte>, net: seq<byte>) {
    |pos| <= |host| && forall h :: 0 <= h < |pos| ==> pos[h] < |net|
  }

  /** Host bytes that share a network position hold the same value. */
  ghost predicate Consistent(pos: seq<nat>, host: seq<byte>)
    requires |pos| <= |host|
  {
    forall a, b :: 0 <= a < b < |pos| && pos[a] == pos[b] ==> host[a] == host[b]
  }

  ghost function Reread(net: seq<byte>, host: seq<byte>, pos: seq<nat>): seq<byte>
    requires Within(pos, host, net)
  {
    Decode(Encode(net, host, pos, |pos|), pos)
  }

  /** After a round trip every host byte holds what the last byte sharing its position held. */
  lemma RereadAt(net: seq<byte>, host: seq<byte>, pos: seq<nat>, h: nat)
    requires Within(pos, host, net) && h < |pos|
    ensures var w := Writer(pos, |pos|, pos[h]);
      h <= w < |pos| && pos[w] == pos[h] && Reread(net, host, pos)[h] == host[w]
  {
    EncodeAt(net, host, pos, |pos|, pos[h]);
  }

  /** Encoding and decoding give the host bytes back exactly when bytes that share a network position
      hold the same value. */
  lemma RoundTripIff(net: seq<byte>, host: seq<byte>, pos: seq<nat>)
    requires Within(pos, host, net)
    ensures Reread(net, host, pos) == host[..|pos|] <==> Consistent(pos, host)
  {
    hide Writer, Encode;
    var back := Reread(net, host, pos);
    if back == host[..|pos|] {
      forall a, b | 0 <= a < b < |pos| && pos[a] == pos[b] ensures host[a] == host[b] {
        assert back[a] == host[..|pos|][a] && back[b] == host[..|pos|][b];
      }
    }
    if Consistent(pos, host) {
      forall h | 0 <= h < |pos| ensures back[h] == host[h] {
        RereadAt(net, host, pos, h);
      }
    }
  }

  /** So a program gives back every host image exactly when no network position is used twice. */
  lemma RoundTripForAllIff(net: seq<byte>, pos: seq<nat>)
    requires forall h :: 0 <= h < |pos| ==> pos[h] < |net|
    ensures Injective(pos) <==> forall host: seq<byte> :: |host| == |pos| ==> Reread(net, host, pos) == host
  {
    hide Reread;
    if Injective(pos) {
      forall host: seq<byte> | |host| == |pos| ensures Reread(net, host, pos) == host {
        RoundTripIff(net, host, pos);
        assert host[..|pos|] == host;
      }
    } else {
      var a, b :| 0 <= a < b < |pos| && pos[a] == pos[b];
      var host: seq<byte> := seq(|pos|, h => if h == a then 1 else 0);
      assert !Consistent(pos, host) by { assert host[a] == 1 && host[b] == 0; }
      RoundTripIff(net, host, pos);
      assert host[..|pos|] == host;
    }
  }

  /** The network region of an instruction. */
  ghost predicate Covers(i: Instr, p: nat) {
    i.ndo <= p < i.ndo + i.size * i.count
  }

  /** No network position belongs to two instructions. */
  ghost predicate DisjointRegions(instrs: seq<Instr>) {
    forall a, b, p: nat :: 0 <= a < b < |instrs| ==> !(Covers(instrs[a], p) && Covers(instrs[b], p))
  }

  ghost predicate ApartFrom(i: Instr, tail: seq<Instr>) {
    forall p: nat, k :: 0 <= k < |tail| ==> !(Covers(i, p) && Covers(tail[k], p))
  }

  lemma {:induction false} InstrMapCovers(ndo: nat, size: nat, count: nat)
    ensures forall p: nat :: p in InstrMap(ndo, size, count) <==> ndo <= p < ndo + size * count
    ensures Injective(InstrMap(ndo, size, count))
    decreases count
  {
    if count > 0 {
      InstrMapCovers(ndo + size, size, count - 1);
      assert size * count == size + size * (count - 1);
      var e, rest := ElementMap(ndo, size), InstrMap(ndo + size, size, count - 1);
      assert forall p: nat :: p in e <==> ndo <= p < ndo + size by {
        forall p: nat | ndo <= p < ndo + size ensures p in e { assert e[size - 1 - (p - ndo)] == p; }
      }
      forall a, b | 0 <= a < b < |e + rest| ensures (e + rest)[a] != (e + rest)[b] {
        if a < size <= b { assert e[a] in e && rest[b - size] in rest; }
      }
    }
  }

  lemma {:induction false} MapCovers(instrs: seq<Instr>, p: nat)
    ensures p in HostToNet(instrs) <==> exists k :: 0 <= k < |instrs| && Covers(instrs[k], p)
  {
    if instrs != [] {
      var i := instrs[0];
      InstrMapCovers(i.ndo, i.size, i.count);
      MapCovers(instrs[1..], p);
      if k :| 0 <= k < |instrs[1..]| && Covers(instrs[1..][k], p) {
        assert Covers(instrs[k + 1], p);
      }
      if k :| 0 < k < |instrs| && Covers(instrs[k], p) {
        assert instrs[1..][k - 1] == instrs[k];
      }
    }
  }

  lemma InjectiveConcat(a: seq<nat>, b: seq<nat>)
    ensures Injective(a + b) <==> Injective(a) && Injective(b) && (forall p :: !(p in a && p in b))
  {
    var c := a + b;
    if Injective(c) {
      forall i, j | 0 <= i < j < |a| ensures a[i] != a[j] { assert c[i] != c[j]; }
      forall i, j | 0 <= i < j < |b| ensures b[i] != b[j] { assert c[|a| + i] != c[|a| + j]; }
    }
    if p :| p in a && p in b {
      var i :| 0 <= i < |a| && a[i] == p;
      var j :| 0 <= j < |b| && b[j] == p;
      assert c[i] == c[|a| + j];
    }
    if Injective(a) && Injective(b) && (forall p :: !(p in a && p in b)) {
      forall i, j | 0 <= i < j < |c| ensures c[i] != c[j] {
        if i < |a| <= j { assert c[i] in a && c[j] in b; }
      }
    }
  }

  lemma DisjointCons(i: Instr, tail: seq<Instr>)
    ensures DisjointRegions([i] + tail) <==> DisjointRegions(tail) && ApartFrom(i, tail)
  {
    var all := [i] + tail;
    assert forall k :: 0 <= k < |tail| ==> tail[k] == all[k + 1];
    if DisjointRegions(all) {
      forall a, b, p: nat | 0 <= a < b < |tail| ensures !(Covers(tail[a], p) && Covers(tail[b], p)) {
        assert !(Covers(all[a + 1], p) && Covers(all[b + 1], p));
      }
      forall p: nat, k | 0 <= k < |tail| ensures !(Covers(i, p) && Covers(tail[k], p)) {
        assert !(Covers(all[0], p) && Covers(all[k + 1], p));
      }
    }
    if DisjointRegions(tail) && ApartFrom(i, tail) {
      forall a, b, p: nat | 0 <= a < b < |all| ensures !(Covers(all[a], p) && Covers(all[b], p)) {
        if a > 0 { assert !(Covers(tail[a - 1], p) && Covers(tail[b - 1], p)); }
        else { assert !(Covers(i, p) && Covers(tail[b - 1], p)); }
      }
    }
  }

  /** Pairwise disjoint regions are what makes the map of a program use every position once. */
  lemma {:induction false} DisjointIffInjective(instrs: seq<Instr>)
    ensures DisjointRegions(instrs) <==> Injective(HostToNet(instrs))
  {
    if instrs != [] {
      var i, tail := instrs[0], instrs[1..];
      assert instrs == [i] + tail;
      var first, rest := InstrMap(i.ndo, i.size, i.count), HostToNet(tail);
      InstrMapCovers(i.ndo, i.size, i.count);
      DisjointIffInjective(tail);
      DisjointCons(i, tail);
      InjectiveConcat(first, rest);
      forall p: nat ensures p in first <==> Covers(i, p) {}
      forall p: nat ensures p in rest <==> exists k :: 0 <= k < |tail| && Covers(tail[k], p) {
        MapCovers(tail, p);
      }
    }
  }

  /** The promise of the conversion pair: a program with pairwise disjoint network regions takes every
      host image to the network and back unchanged. */
  lemma DisjointRoundTrip(net: seq<byte>, host: seq<byte>, instrs: seq<Instr>)
    requires Within(HostToNet(instrs), host, net) && DisjointRegions(instrs)
    ensures Reread(net, host, HostToNet(instrs)) == host[..|HostToNet(instrs)|]
  {
    DisjointIffInjective(instrs);
    RoundTripIff(net, host, HostToNet(instrs));
  }

  // ------------------------------------------------------------------
  // Unions: members that share network bytes
  // ------------------------------------------------------------------

  /** Where an encoding told to stop at host offset `stop` ends: at the first instruction that reaches it. */
  ghost function HostStop(instrs: seq<Instr>, hdo: nat, stop: nat): (k: nat)
    ensures k >= hdo
  {
    if instrs == [] then hdo
    else
      var next := hdo + |InstrMap(instrs[0].ndo, instrs[0].size, instrs[0].count)|;
      if next >= stop then next else HostStop(instrs[1..], next, stop)
  }

  lemma {:induction false} HostStopInside(instrs: seq<Instr>, hdo: nat, stop: nat)
    ensures hdo <= HostStop(instrs, hdo, stop) <= hdo + |HostToNet(instrs)|
    ensures HostStop(instrs, hdo, stop) < stop ==> HostStop(instrs, hdo, stop) == hdo + |HostToNet(instrs)|
  {
    if instrs != [] {
      var n := |InstrMap(instrs[0].ndo, instrs[0].size, instrs[0].count)|;
      HostStopInside(instrs[1..], hdo + n, stop);
    }
  }

  /** Host offset `end` lies between two instructions (or at the end of the program). */
  ghost predicate IsBoundary(instrs: seq<Instr>, hdo: nat, end: nat) {
    hdo == end ||
    (instrs != [] &&
     IsBoundary(instrs[1..], hdo + |InstrMap(instrs[0].ndo, instrs[0].size, instrs[0].count)|, end))
  }

  lemma {:induction false} BoundaryNotBefore(instrs: seq<Instr>, hdo: nat, end: nat)
    requires IsBoundary(instrs, hdo, end)
    ensures hdo <= end
  {
    if hdo != end {
      BoundaryNotBefore(instrs[1..], hdo + |InstrMap(instrs[0].ndo, instrs[0].size, instrs[0].count)|, end);
    }
  }

  /** The second encoding of an update ends exactly where the member ends if and only if that is an
      instruction boundary. */
  lemma {:induction false} StopsAtBoundaryIff(instrs: seq<Instr>, hdo: nat, end: nat)
    requires hdo < end
    ensures HostStop(instrs, hdo, end) == end <==> IsBoundary(instrs, hdo, end)
  {
    if instrs != [] {
      var next := hdo + |InstrMap(instrs[0].ndo, instrs[0].size, instrs[0].count)|;
      if next < end {
        StopsAtBoundaryIff(instrs[1..], next, end);
      } else if IsBoundary(instrs, hdo, end) {
        BoundaryNotBefore(instrs[1..], next, end);
      }
    }
  }

  /** The network image IzotUpdateUnion builds: everything once, then again up to `stop`. */
  ghost function UnionNet(net: seq<byte>, host: seq<byte>, pos: seq<nat>, stop: nat): (r: seq<byte>)
    requires Within(pos, host, net) && stop <= |pos|
    ensures |r| == |net|
  {
    Encode(Encode(net, host, pos, |pos|), host, pos, stop)
  }

  /** The host byte that decides network position p: the last one before `stop` written there, or else
      the last one of all. */
  ghost function UnionWriter(pos: seq<nat>, stop: nat, p: nat): int
    requires stop <= |pos|
  {
    if Writer(pos, stop, p) >= 0 then Writer(pos, stop, p) else Writer(pos, |pos|, p)
  }

  lemma UnionNetAt(net: seq<byte>, host: seq<byte>, pos: seq<nat>, stop: nat, h: nat)
    requires Within(pos, host, net) && stop <= |pos| && h < |pos|
    ensures 0 <= UnionWriter(pos, stop, pos[h]) < |pos|
    ensures UnionNet(net, host, pos, stop)[pos[h]] == host[UnionWriter(pos, stop, pos[h])]
  {
    EncodeAt(net, host, pos, |pos|, pos[h]);
    EncodeAt(Encode(net, host, pos, |pos|), host, pos, stop, pos[h]);
  }

  /** After the update all members of the union agree with one network image, whatever the program's
      regions: encoding the new host image again, over any buffer, gives that image on every position
      the program uses. */
  lemma UnionMembersAgree(net: seq<byte>, host: seq<byte>, pos: seq<nat>, stop: nat, other: seq<byte>, h: nat)
    requires Within(pos, host, net) && stop <= |pos| && |other| == |net| && h < |pos|
    ensures var image := UnionNet(net, host, pos, stop);
      Encode(other, Decode(image, pos), pos, |pos|)[pos[h]] == image[pos[h]]
  {
    var image := UnionNet(net, host, pos, stop);
    EncodeAt(other, Decode(image, pos), pos, |pos|, pos[h]);
  }

  /** The member [from, stop) that was just written keeps its bytes exactly when its bytes that share a
      network position agree with one another; in particular when its own regions are disjoint. */
  lemma MemberKeepsBytesIff(net: seq<byte>, host: seq<byte>, pos: seq<nat>, from: nat, stop: nat)
    requires Within(pos, host, net) && from <= stop <= |pos|
    ensures Decode(UnionNet(net, host, pos, stop), pos)[from..stop] == host[from..stop]
      <==> forall a, b :: from <= a < b < stop && pos[a] == pos[b] ==> host[a] == host[b]
    ensures Injective(pos[from..stop]) ==> Decode(UnionNet(net, host, pos, stop), pos)[from..stop] == host[from..stop]
  {
    hide Writer, Encode, UnionNet;
    var now := Decode(UnionNet(net, host, pos, stop), pos);
    forall h | from <= h < stop
      ensures h <= UnionWriter(pos, stop, pos[h]) < stop
      ensures pos[UnionWriter(pos, stop, pos[h])] == pos[h]
      ensures now[h] == host[UnionWriter(pos, stop, pos[h])]
    {
      UnionNetAt(net, host, pos, stop, h);
    }
    if now[from..stop] == host[from..stop] {
      forall a, b | from <= a < b < stop && pos[a] == pos[b] ensures host[a] == host[b] {
        assert now[from..stop][a - from] == host[from..stop][a - from];
        assert now[from..stop][b - from] == host[from..stop][b - from];
      }
    }
    if forall a, b :: from <= a < b < stop && pos[a] == pos[b] ==> host[a] == host[b] {
      forall h | from <= h < stop ensures now[h] == host[h] {}
    }
    if Injective(pos[from..stop]) {
      forall a, b | from <= a < b < stop ensures pos[a] != pos[b] {
        assert pos[from..stop][a - from] != pos[from..stop][b - from];
      }
    }
  }

  /** The promise of IzotUpdateUnion to its caller, in the terms of the call: a member of `len` bytes at
      `offset` that ends on an instruction boundary and whose own bytes share no network position keeps
      its value. */
  lemma WrittenMemberSurvives(net: seq<byte>, host: seq<byte>, instrs: seq<Instr>, offset: nat, len: nat)
    requires Within(HostToNet(instrs), host, net) && len > 0
    requires IsBoundary(instrs, 0, offset + len)
    requires offset + len <= |HostToNet(instrs)| && Injective(HostToNet(instrs)[offset..offset + len])
    ensures var pos, stop := HostToNet(instrs), HostStop(instrs, 0, offset + len);
      stop <= |pos| && Decode(UnionNet(net, host, pos, stop), pos)[offset..offset + len] == host[offset..offset + len]
  {
    StopsAtBoundaryIff(instrs, 0, offset + len);
    MemberKeepsBytesIff(net, host, HostToNet(instrs), offset, offset + len);
  }

  // ------------------------------------------------------------------
  // The conversion loops
  // ------------------------------------------------------------------

  /** `SwapByte`: `size` bytes reversed into `dst[d..]`. */
  method SwapByte(dst: array<byte>, d: nat, src: seq<byte>)
    requires src != [] ==> d + |src| <= dst.Length
    modifies dst
    ensures forall k :: 0 <= k < dst.Length ==>
      dst[k] == if d <= k < d + |src| then src[|src| - 1 - (k - d)] else old(dst[k])
  {
    var i, j := 0, |src| - 1;
    while i < |src|
      invariant i <= |src| && j == |src| - 1 - i
      invariant forall k :: 0 <= k < dst.Length ==>
        dst[k] == if d <= k < d + i then src[|src| - 1 - (k - d)] else old(dst[k])
    {
      dst[d + i] := src[j];
      i, j := i + 1, j - 1;
    }
  }

  /** `memcpy` of a run of single bytes. */
  method CopyBytes(dst: array<byte>, d: nat, src: seq<byte>)
    requires src != [] ==> d + |src| <= dst.Length
    modifies dst
    ensures forall k :: 0 <= k < dst.Length ==>
      dst[k] == if d <= k < d + |src| then src[k - d] else old(dst[k])
  {
    var i := 0;
    while i < |src|
      invariant i <= |src|
      invariant forall k :: 0 <= k < dst.Length ==>
        dst[k] == if d <= k < d + i then src[k - d] else old(dst[k])
    {
      dst[d + i] := src[i];
      i := i + 1;
    }
  }

  /** The part of the map that instruction `i` contributes when it starts at host offset `hdo`. */
  ghost predicate Contributes(pos: seq<nat>, hdo: nat, ndo: nat, size: nat, count: nat) {
    var m := InstrMap(ndo, size, count);
    hdo + |m| <= |pos| && forall k :: 0 <= k < |m| ==> pos[hdo + k] == m[k]
  }

  /** Element by element: the first element's bytes, and the rest as a shorter instruction. */
  lemma ContributesElement(pos: seq<nat>, hdo: nat, ndo: nat, size: nat, count: nat)
    requires Contributes(pos, hdo, ndo, size, count) && count > 0
    ensures hdo + size <= |pos|
    ensures forall k :: hdo <= k < hdo + size ==> pos[k] == ndo + size - 1 - (k - hdo)
    ensures Contributes(pos, hdo + size, ndo + size, size, count - 1)
  {
    var m, e, r := InstrMap(ndo, size, count), ElementMap(ndo, size), InstrMap(ndo + size, size, count - 1);
    forall k | hdo <= k < hdo + size ensures pos[k] == ndo + size - 1 - (k - hdo) {
      assert pos[hdo + (k - hdo)] == m[k - hdo] == e[k - hdo];
    }
    forall k | 0 <= k < |r| ensures pos[hdo + size + k] == r[k] {
      assert pos[hdo + (size + k)] == m[size + k];
    }
  }

  lemma ContributesBytes(pos: seq<nat>, hdo: nat, ndo: nat, count: nat)
    requires Contributes(pos, hdo, ndo, 1, count)
    ensures hdo + count <= |pos|
    ensures forall k :: hdo <= k < hdo + count ==> pos[k] == ndo + (k - hdo)
  {
    ByteInstrMap(ndo, count);
    var m := InstrMap(ndo, 1, count);
    forall k | hdo <= k < hdo + count ensures pos[k] == ndo + (k - hdo) {
      assert pos[hdo + (k - hdo)] == m[k - hdo];
    }
  }

  /** One instruction of `IzotNdiToHdi`. */
  method ReadInstr(ndi: seq<byte>, hdi: array<byte>, hdoIn: nat, ndoIn: nat, size: nat, count: nat, ghost pos: seq<nat>)
    returns (hdo: nat)
    requires InRange(pos, hdi.Length, |ndi|) && Contributes(pos, hdoIn, ndoIn, size, count)
    modifies hdi
    ensures hdo == hdoIn + |InstrMap(ndoIn, size, count)|
    ensures forall k :: 0 <= k < hdi.Length ==>
      hdi[k] == if hdoIn <= k < hdo then ndi[pos[k]] else old(hdi[k])
  {
    hdo := hdoIn;
    var ndo: nat, elements: nat := ndoIn, count;
    InstrMapLength(ndo, size, elements);
    if size == 1 {
      ContributesBytes(pos, hdo, ndo, elements);
      if elements > 0 {
        assert pos[hdo + (elements - 1)] == ndo + elements - 1;
        CopyBytes(hdi, hdo, ndi[ndo..ndo + size * elements]);
      }
      hdo := hdo + size * elements;
    } else {
      while elements > 0
        invariant hdoIn <= hdo && Contributes(pos, hdo, ndo, size, elements)
        invariant hdo + |InstrMap(ndo, size, elements)| == hdoIn + |InstrMap(ndoIn, size, count)|
        invariant forall k :: 0 <= k < hdi.Length ==>
          hdi[k] == if hdoIn <= k < hdo then ndi[pos[k]] else old(hdi[k])
      {
        ContributesElement(pos, hdo, ndo, size, elements);
        if size > 0 { assert pos[hdo] == ndo + size - 1; }
        SwapByte(hdi, hdo, if size > 0 then ndi[ndo..ndo + size] else []);
        hdo, ndo, elements := hdo + size, ndo + size, elements - 1;
      }
    }
  }

  /** The first k host bytes have been read from the network image. */
  ghost predicate ReadUpTo(now: seq<byte>, was: seq<byte>, net: seq<byte>, pos: seq<nat>, k: nat) {
    k <= |pos| <= |now| == |was| && (forall h :: 0 <= h < |pos| ==> pos[h] < |net|)
    && forall h :: 0 <= h < |now| ==> now[h] == if h < k then net[pos[h]] else was[h]
  }

  /** One turn of the loop of `IzotNdiToHdi`. */
  method ReadNext(ndi: seq<byte>, hdi: array<byte>, ibol: seq<byte>, at: nat, from: nat, ghost pos: seq<nat>, ghost was: seq<byte>)
    returns (i: nat, hdo: nat)
    requires Reached(ibol, at, pos, from) && ibol[at] != IBOL_FINISH
    requires InRange(pos, hdi.Length, |ndi|) && ReadUpTo(hdi[..], was, ndi, pos, from)
    modifies hdi
    ensures Reached(ibol, i, pos, hdo) && i > at && ReadUpTo(hdi[..], was, ndi, pos, hdo)
  {
    var instr := InstrAt(ibol, at);
    HeadContributes(ibol, at, pos, from, 0);
    hide HostToNet, InstrMap, Contributes, InstrAt, Parse, HostStop, WellFormed, Reached;
    i := at + Width(ibol, at);
    hdo := ReadInstr(ndi, hdi, from, instr.ndo, instr.size, instr.count, pos);
  }

  /** `IzotNdiToHdi`: the host image becomes what the program reads from the network image. */
  method NdiToHdi(ndi: seq<byte>, hdi: array<byte>, ibol: seq<byte>)
    requires WellFormed(ibol, 0) && InRange(HostToNet(Parse(ibol, 0)), hdi.Length, |ndi|)
    modifies hdi
    ensures var pos := HostToNet(Parse(ibol, 0));
      hdi[..|pos|] == Decode(ndi, pos) && hdi[|pos|..] == old(hdi[|pos|..])
  {
    var i: nat, hdo: nat := 0, 0;
    ghost var pos, was := HostToNet(Parse(ibol, 0)), hdi[..];
    while ibol[i] != IBOL_FINISH
      invariant Reached(ibol, i, pos, hdo) && ReadUpTo(hdi[..], was, ndi, pos, hdo)
      decreases |ibol| - i
    {
      hide HostToNet, Parse, ReadUpTo, InRange;
      i, hdo := ReadNext(ndi, hdi, ibol, i, hdo, pos, was);
    }
    assert pos[hdo..] == [];
    assert hdi[|pos|..] == hdi[..][|pos|..] == was[|pos|..];
  }

  lemma ContributesHead(pos: seq<nat>, hdo: nat, instrs: seq<Instr>)
    requires hdo <= |pos| && pos[hdo..] == HostToNet(instrs) && instrs != []
    ensures Contributes(pos, hdo, instrs[0].ndo, instrs[0].size, instrs[0].count)
    ensures var n := |InstrMap(instrs[0].ndo, instrs[0].size, instrs[0].count)|;
      pos[hdo + n..] == HostToNet(instrs[1..])
  {
    var m := InstrMap(instrs[0].ndo, instrs[0].size, instrs[0].count);
    assert HostToNet(instrs) == m + HostToNet(instrs[1..]);
    forall k | 0 <= k < |m| ensures pos[hdo + k] == m[k] { assert pos[hdo..][k] == m[k]; }
    assert pos[hdo + |m|..] == pos[hdo..][|m|..];
  }

  lemma HeadContributes(ibol: seq<byte>, i: nat, pos: seq<nat>, hdo: nat, stop: nat)
    requires WellFormed(ibol, i) && ibol[i] != IBOL_FINISH
    requires hdo <= |pos| && pos[hdo..] == HostToNet(Parse(ibol, i))
    ensures i + Width(ibol, i) < |ibol| && WellFormed(ibol, i + Width(ibol, i))
    ensures var a, next := InstrAt(ibol, i), i + Width(ibol, i);
      var end := hdo + |InstrMap(a.ndo, a.size, a.count)|;
      && Contributes(pos, hdo, a.ndo, a.size, a.count) && end <= |pos|
      && pos[end..] == HostToNet(Parse(ibol, next)) && Reached(ibol, next, pos, end)
      && HostStop(Parse(ibol, i), hdo, stop) == if end >= stop then end else HostStop(Parse(ibol, next), end, stop)
  {
    ContributesHead(pos, hdo, Parse(ibol, i));
    hide InstrMap, HostToNet, InstrAt;
    assert Parse(ibol, i)[1..] == Parse(ibol, i + Width(ibol, i));
  }

  lemma WriterUnique(pos: seq<nat>, k: nat, n: nat, p: nat)
    requires k <= n <= |pos|
    ensures (forall j :: k <= j < n ==> pos[j] != p) ==> Writer(pos, n, p) == Writer(pos, k, p)
    ensures forall j :: k <= j < n && pos[j] == p ==> k <= Writer(pos, n, p)
  {}

  /** Writing a whole region at once is what the host bytes of that region write one by one: `inv`
      names the host byte of each position. */
  lemma EncodeSegment(net: seq<byte>, host: seq<byte>, pos: seq<nat>, k: nat, n: nat, now: seq<byte>, swap: bool)
    requires Within(pos, host, net) && k + n <= |pos| && |now| == |net|
    requires n > 0 ==> forall j :: k <= j < k + n ==> pos[j] == Spot(pos, k, n, swap) + (if swap then n - 1 - (j - k) else j - k)
    requires forall p :: 0 <= p < |net| ==>
      now[p] == if n > 0 && Spot(pos, k, n, swap) <= p < Spot(pos, k, n, swap) + n
                then host[k + (if swap then n - 1 - (p - Spot(pos, k, n, swap)) else p - Spot(pos, k, n, swap))]
                else Encode(net, host, pos, k)[p]
    ensures now == Encode(net, host, pos, k + n)
  {
    forall p | 0 <= p < |net| ensures now[p] == Encode(net, host, pos, k + n)[p] {
      EncodeAt(net, host, pos, k, p);
      EncodeAt(net, host, pos, k + n, p);
      WriterUnique(pos, k, k + n, p);
      if n > 0 {
        var lo := Spot(pos, k, n, swap);
        if lo <= p < lo + n {
          var j := k + (if swap then n - 1 - (p - lo) else p - lo);
          assert pos[j] == p;
        }
      }
    }
  }

  /** The lowest network position of a run of n host bytes from k on. */
  ghost function Spot(pos: seq<nat>, k: nat, n: nat, swap: bool): nat
    requires k + n <= |pos| && n > 0
  {
    if swap then pos[k + n - 1] else pos[k]
  }

  /** One run of bytes or one swapped element of `IzotHdiToNdi`. */
  method WriteBlock(src: seq<byte>, dst: array<byte>, hdo: nat, ndo: nat, n: nat, swap: bool,
                    ghost net: seq<byte>, ghost pos: seq<nat>)
    requires InRange(pos, |src|, dst.Length) && hdo + n <= |pos| && |net| == dst.Length
    requires forall k :: hdo <= k < hdo + n ==> pos[k] == ndo + (if swap then n - 1 - (k - hdo) else k - hdo)
    requires dst[..] == Encode(net, src, pos, hdo)
    modifies dst
    ensures dst[..] == Encode(net, src, pos, hdo + n)
  {
    if n > 0 { assert pos[hdo] < dst.Length && pos[hdo + n - 1] < dst.Length; }
    if swap {
      SwapByte(dst, ndo, src[hdo..hdo + n]);
    } else {
      CopyBytes(dst, ndo, src[hdo..hdo + n]);
    }
    EncodeSegment(net, src, pos, hdo, n, dst[..], swap);
  }

  /** The first k host bytes have been written over the network image. */
  ghost predicate Written(now: seq<byte>, net: seq<byte>, host: seq<byte>, pos: seq<nat>, k: nat) {
    k <= |pos| && Within(pos, host, net) && now == Encode(net, host, pos, k)
  }

  /** One instruction of `IzotHdiToNdi`. */
  method WriteInstr(src: seq<byte>, dst: array<byte>, hdoIn: nat, ndoIn: nat, size: nat, count: nat,
                    ghost net: seq<byte>, ghost pos: seq<nat>)
    returns (hdo: nat)
    requires InRange(pos, |src|, dst.Length) && Contributes(pos, hdoIn, ndoIn, size, count) && |net| == dst.Length
    requires Written(dst[..], net, src, pos, hdoIn)
    modifies dst
    ensures hdo == hdoIn + |InstrMap(ndoIn, size, count)| <= |pos|
    ensures Written(dst[..], net, src, pos, hdo)
  {
    hdo := hdoIn;
    var ndo: nat, elements: nat := ndoIn, count;
    InstrMapLength(ndo, size, elements);
    if size == 1 {
      ContributesBytes(pos, hdo, ndo, elements);
      WriteBlock(src, dst, hdo, ndo, size * elements, false, net, pos);
      hdo := hdo + size * elements;
    } else {
      while elements > 0
        invariant hdoIn <= hdo && Contributes(pos, hdo, ndo, size, elements)
        invariant hdo + |InstrMap(ndo, size, elements)| == hdoIn + |InstrMap(ndoIn, size, count)|
        invariant dst[..] == Encode(net, src, pos, hdo)
      {
        ContributesElement(pos, hdo, ndo, size, elements);
        WriteBlock(src, dst, hdo, ndo, size, true, net, pos);
        hdo, ndo, elements := hdo + size, ndo + size, elements - 1;
      }
    }
  }

  /** The program has been read up to position i, and its map up to host offset hdo. */
  ghost predicate Reached(ibol: seq<byte>, i: nat, pos: seq<nat>, hdo: nat) {
    i < |ibol| && WellFormed(ibol, i) && hdo <= |pos| && pos[hdo..] == HostToNet(Parse(ibol, i))
  }

  /** Where an encoding ends that has come this far. */
  ghost function StopFrom(ibol: seq<byte>, i: nat, hdo: nat, stop: nat): nat
    requires i < |ibol| && WellFormed(ibol, i)
  {
    HostStop(Parse(ibol, i), hdo, stop)
  }

  /** One turn of the loop of `IzotHdiToNdi`. */
  method WriteNext(ibol: seq<byte>, at: nat, src: seq<byte>, dst: array<byte>, from: nat, ghost stop: nat,
                   ghost net: seq<byte>, ghost pos: seq<nat>)
    returns (i: nat, hdo: nat)
    requires Reached(ibol, at, pos, from) && ibol[at] != IBOL_FINISH
    requires InRange(pos, |src|, dst.Length) && |net| == dst.Length && Written(dst[..], net, src, pos, from)
    modifies dst
    ensures Reached(ibol, i, pos, hdo) && i > at && Written(dst[..], net, src, pos, hdo)
    ensures StopFrom(ibol, at, from, stop) == if hdo >= stop then hdo else StopFrom(ibol, i, hdo, stop)
  {
    var instr := InstrAt(ibol, at);
    HeadContributes(ibol, at, pos, from, stop);
    hide HostToNet, InstrMap, Contributes, Written, InRange, InstrAt, Parse, HostStop, WellFormed;
    i := at + Width(ibol, at);
    hdo := WriteInstr(src, dst, from, instr.ndo, instr.size, instr.count, net, pos);
  }

  /** `IzotHdiToNdi`: the network image is written over in host order, up to the first instruction that
      reaches host offset `stop`. */
  method HdiToNdi(ibol: seq<byte>, src: seq<byte>, dst: array<byte>, stop: nat)
    requires WellFormed(ibol, 0) && InRange(HostToNet(Parse(ibol, 0)), |src|, dst.Length)
    modifies dst
    ensures var instrs := Parse(ibol, 0);
      && HostStop(instrs, 0, stop) <= |HostToNet(instrs)|
      && dst[..] == Encode(old(dst[..]), src, HostToNet(instrs), HostStop(instrs, 0, stop))
  {
    var i: nat, hdo: nat := 0, 0;
    ghost var net, pos, end := dst[..], HostToNet(Parse(ibol, 0)), StopFrom(ibol, 0, 0, stop);
    HostStopInside(Parse(ibol, 0), 0, stop);
    while ibol[i] != IBOL_FINISH
      invariant Reached(ibol, i, pos, hdo) && end == StopFrom(ibol, i, hdo, stop)
      invariant Written(dst[..], net, src, pos, hdo)
      decreases |ibol| - i
    {
      hide HostToNet, StopFrom, Parse, Written, InRange, Encode;
      i, hdo := WriteNext(ibol, i, src, dst, hdo, stop, net, pos);
      if hdo >= stop {
        break;
      }
    }
  }

  /** `IzotPrepareNetworkData`: the copied value with the program's bytes written over it. */
  method PrepareNetworkData(ndi: array<byte>, dpLen: nat, hdi: seq<byte>, ibol: seq<byte>)
    requires dpLen <= ndi.Length && dpLen <= |hdi|
    requires WellFormed(ibol, 0) && InRange(HostToNet(Parse(ibol, 0)), |hdi|, ndi.Length)
    modifies ndi
    ensures var pos := HostToNet(Parse(ibol, 0));
      && Within(pos, hdi, ndi[..])
      && (forall h :: 0 <= h < |pos| ==> ndi[pos[h]] == hdi[Writer(pos, |pos|, pos[h])])
      && (forall p :: 0 <= p < dpLen && p !in pos ==> ndi[p] == hdi[p])
  {
    hide Parse, HostToNet, HostStop, WellFormed, Encode, Writer;
    CopyBytes(ndi, 0, hdi[..dpLen]);
    ghost var net, pos := ndi[..], HostToNet(Parse(ibol, 0));
    assert forall p :: 0 <= p < dpLen ==> net[p] == hdi[p];
    assert Within(pos, hdi, net);
    HostStopInside(Parse(ibol, 0), 0, MAX_STOP_OFFSET);
    HdiToNdi(ibol, hdi, ndi, MAX_STOP_OFFSET);
    hide InRange;
    EncodedBytes(net, hdi, pos, ndi[..]);
    hide Within;
  }

  lemma EncodedBytes(net: seq<byte>, host: seq<byte>, pos: seq<nat>, out: seq<byte>)
    requires Within(pos, host, net) && out == Encode(net, host, pos, |pos|)
    ensures forall h :: 0 <= h < |pos| ==> out[pos[h]] == host[Writer(pos, |pos|, pos[h])]
    ensures forall p :: 0 <= p < |net| && p !in pos ==> out[p] == net[p]
  {
    hide Writer, Encode;
    forall h | 0 <= h < |pos| ensures out[pos[h]] == host[Writer(pos, |pos|, pos[h])] {
      EncodeAt(net, host, pos, |pos|, pos[h]);
    }
    forall p | 0 <= p < |net| && p !in pos ensures out[p] == net[p] {
      EncodeAt(net, host, pos, |pos|, p);
    }
  }

  /** `IzotUpdateUnion`: encode everything, encode again up to the end of the member just written, and
      read the host image back. */
  method UpdateUnion(data: array<byte>, offset: byte, len: nat, ibol: seq<byte>) returns (ghost net: seq<byte>)
    requires WellFormed(ibol, 0) && InRange(HostToNet(Parse(ibol, 0)), data.Length, MAX_NV_LENGTH)
    modifies data
    ensures var instrs := Parse(ibol, 0);
      var pos, stop := HostToNet(instrs), HostStop(Parse(ibol, 0), 0, (offset + len) % U16);
      && stop <= |pos| && |net| == MAX_NV_LENGTH
      && data[..|pos|] == Decode(UnionNet(net, old(data[..]), pos, stop), pos)
      && data[|pos|..] == old(data[|pos|..])
  {
    var ndi := new byte[MAX_NV_LENGTH];
    net := ndi[..];
    ghost var instrs := Parse(ibol, 0);
    ghost var pos := HostToNet(instrs);
    HdiToNdi(ibol, data[..], ndi, MAX_STOP_OFFSET);
    HostStopInside(instrs, 0, MAX_STOP_OFFSET);
    HdiToNdi(ibol, data[..], ndi, (offset + len) % U16);
    NdiToHdi(ndi[..], data, ibol);
  }

  lemma SpanOfHead(ibol: seq<byte>, i: nat, pos: seq<nat>, len: nat)
    requires Reached(ibol, i, pos, len) && ibol[i] != IBOL_FINISH
    ensures i + Width(ibol, i) < |ibol| && len + Span(InstrAt(ibol, i)) <= |pos|
    ensures Reached(ibol, i + Width(ibol, i), pos, len + Span(InstrAt(ibol, i)))
  {
    var instr := InstrAt(ibol, i);
    ContributesHead(pos, len, Parse(ibol, i));
    InstrMapLength(instr.ndo, instr.size, instr.count);
    hide InstrMap, HostToNet, InstrAt;
    assert Parse(ibol, i)[1..] == Parse(ibol, i + Width(ibol, i));
  }

  /** One turn of the length loop of `ProcessNVUpdate`. */
  method AddSpan(ibol: seq<byte>, at: nat, dplength: nat) returns (i: nat, length: nat)
    requires at < |ibol| && at + Width(ibol, at) <= |ibol|
    ensures i == at + Width(ibol, at) && length == dplength + Span(InstrAt(ibol, at))
  {
    i := at;
    if ibol[i] >= 0x80 {
      i := i + 1;
    }
    i := i + 1;
    var arg1: nat, arg2: nat := ibol[i], ibol[i + 1];
    i := i + 2;
    length := dplength + arg1 * arg2;
  }

  /** The length loop of `ProcessNVUpdate`: the length it recomputes is the number of host bytes the
      conversion produced. */
  method RecomputeLength(ibol: seq<byte>) returns (dplength: nat)
    requires WellFormed(ibol, 0) && |HostToNet(Parse(ibol, 0))| <= 0xFFFF
    ensures dplength == |HostToNet(Parse(ibol, 0))|
  {
    dplength := 0;
    var i := 0;
    ghost var pos := HostToNet(Parse(ibol, 0));
    assert Reached(ibol, 0, pos, 0) && |ibol| > 0;
    hide HostToNet, Parse, Span, InstrAt, WellFormed, Reached, Width;
    while ibol[i] != IBOL_FINISH
      invariant i < |ibol| && Reached(ibol, i, pos, dplength)
      decreases |ibol| - i
    {
      i, dplength := AddSpan16(ibol, i, dplength, pos);
    }
    NothingLeft(ibol, i, pos, dplength);
  }

  /** The sum is kept in 16 bits, which is enough. */
  method AddSpan16(ibol: seq<byte>, at: nat, dplength: nat, ghost pos: seq<nat>) returns (i: nat, length: nat)
    requires at < |ibol| && Reached(ibol, at, pos, dplength) && ibol[at] != IBOL_FINISH && |pos| <= 0xFFFF
    ensures at < i < |ibol| && Reached(ibol, i, pos, length)
  {
    SpanOfHead(ibol, at, pos, dplength);
    hide Reached, Span, InstrAt;
    i, length := AddSpan(ibol, at, dplength);
    length := length % 0x1_0000;
  }

  lemma NothingLeft(ibol: seq<byte>, i: nat, pos: seq<nat>, len: nat)
    requires Reached(ibol, i, pos, len) && ibol[i] == IBOL_FINISH
    ensures len == |pos|
  {
    assert HostToNet(Parse(ibol, i)) == [];
  }
}
