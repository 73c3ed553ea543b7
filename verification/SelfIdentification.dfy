/** The self-identification area of lcs_app.c: AddNV inserts a descriptor in the middle and an extension
    record near the end of one packed byte area, and HandleNMQuerySIData (lcs_netmgmt.c) serves windows
    of it. */
module SelfIdentification {
  import opened Bytes

  const MAX_NV_SELF_DOC_LENGTH := 1023
  const NV_TABLE_SIZE := 254
  const MAX_NV_ARRAYS := 10
  const ALIAS_LEN := 3
  const HEADER_LEN := 6

  /** The NVDefinition fields that reach the self-identification area or decide whether it is touched.
      Names and documentation are C strings without their terminator; a missing documentation string
      counts as the empty one. `explodeArray` is not set. */
  datatype RawNv = NvDef(
    desc: byte, snvtType: byte, ext: byte, maxRate: byte, rate: byte,
    name: seq<byte>, doc: seq<byte>, arrayCnt: nat,
    bind: bool, selector: nat, nvLength: nat, present: bool)
  type NvDef = v: RawNv | v.arrayCnt < 0x1_0000 && v.selector < 0x1_0000 && 0 !in v.name && 0 !in v.doc
    witness RawNv.NvDef(0, 0, 0, 0, 0, [], [], 0, false, 0, 0, true)

  // The flags of the first descriptor byte and of the extension byte, most significant bit first.
  predicate HasExt(desc: byte) { desc >= 0x80 }
  predicate HasMaxRate(ext: byte) { ext >= 0x80 }
  predicate HasRate(ext: byte) { ext / 64 % 2 == 1 }
  predicate HasName(ext: byte) { ext / 32 % 2 == 1 }
  predicate HasDoc(ext: byte) { ext / 16 % 2 == 1 }
  predicate HasCount(ext: byte) { ext / 8 % 2 == 1 }

  /** The flags of an extension byte are its digits, from 128 down to 8; the digits below mean nothing. */
  lemma ExtFlags(ext: byte)
    ensures var low := ext % 8;
      ext == 128 * Bit(HasMaxRate(ext)) + 64 * Bit(HasRate(ext)) + 32 * Bit(HasName(ext)) + 16 * Bit(HasDoc(ext))
             + 8 * Bit(HasCount(ext)) + low
  {
    Digit(ext / 64, ext / 128, HasRate(ext));
    Digit(ext / 32, ext / 64, HasName(ext));
    Digit(ext / 16, ext / 32, HasDoc(ext));
    Digit(ext / 8, ext / 16, HasCount(ext));
    assert ext / 128 == Bit(HasMaxRate(ext));
    hide HasRate, HasName, HasDoc, HasCount, HasMaxRate;
  }

  lemma Digit(q: nat, half: nat, flag: bool)
    requires half == q / 2 && (flag <==> q % 2 == 1)
    ensures q == 2 * half + Bit(flag)
  {}

  function Dim(v: NvDef): nat {
    if v.arrayCnt > 0 then v.arrayCnt else 1
  }

  // ------------------------------------------------------------------
  // The encoding
  // ------------------------------------------------------------------

  function Desc(v: NvDef): seq<byte> {
    [v.desc, v.snvtType]
  }

  function Ext(v: NvDef): seq<byte> {
    if !HasExt(v.desc) then []
    else
      [v.ext]
      + (if HasMaxRate(v.ext) then [v.maxRate] else [])
      + (if HasRate(v.ext) then [v.rate] else [])
      + (if HasName(v.ext) then v.name + [0] else [])
      + (if HasDoc(v.ext) then v.doc + [0] else [])
      + (if HasCount(v.ext) then [v.arrayCnt / 256, v.arrayCnt % 256] else [])
  }

  function Descs(vs: seq<NvDef>): (d: seq<byte>)
    ensures |d| == 2 * |vs|
  {
    if vs == [] then [] else Descs(vs[..|vs| - 1]) + Desc(vs[|vs| - 1])
  }

  function Exts(vs: seq<NvDef>): seq<byte> {
    if vs == [] then [] else Exts(vs[..|vs| - 1]) + Ext(vs[|vs| - 1])
  }

  /** Descriptors, node self-documentation with its terminator, extension records, alias field. */
  function Area(vs: seq<NvDef>, selfDoc: seq<byte>, alias: seq<byte>): seq<byte> {
    Descs(vs) + (selfDoc + [0]) + Exts(vs) + alias
  }

  // ------------------------------------------------------------------
  // The area in memory
  // ------------------------------------------------------------------

  class SelfIdArea {
    const sb: array<byte>
    // the header of the SNVT structure; `length` is the big-endian field as a number
    var length: nat
    var numNetvars: byte
    var version: byte
    var msbNumNetvars: byte
    var mtagCount: byte
    // descPtr and aliasPtr, as offsets into sb
    var descPtr: nat
    var aliasPtr: nat
    var nvTableSize: nat
    var nvArrayTblSize: nat
    var unboundSelector: int
    ghost var defs: seq<NvDef>
    ghost var selfDoc: seq<byte>
    ghost var alias: seq<byte>

    ghost predicate Valid()
      reads this, sb
    {
      var area := Area(defs, selfDoc, alias);
      && |alias| == ALIAS_LEN
      && |area| <= sb.Length < 0xFFF0
      && sb[..|area|] == area
      && descPtr == 2 * |defs|
      && aliasPtr == |area| - ALIAS_LEN
      && length == |area| + HEADER_LEN
      && numNetvars + 256 * msbNumNetvars == |defs| <= nvTableSize <= NV_TABLE_SIZE
    }

    /** The header bytes as they lie in memory. */
    function Header(): (h: seq<byte>)
      reads this`length, this`numNetvars, this`version, this`msbNumNetvars, this`mtagCount
      ensures |h| == HEADER_LEN
    {
      var high: byte, low: byte := length / 256 % 256, length % 256;
      [high, low, numNetvars, version, msbNumNetvars, mtagCount]
    }

    /** `AppLayerInit`, the SNVT area part; `doc` is the node self-documentation string. */
    constructor (siDataLength: nat, doc: seq<byte>, aliasTableCount: byte, bindableMTagCount: byte)
      requires ALIAS_LEN < siDataLength < 0xFFF0 && 0 !in doc
      ensures Valid() && fresh(sb) && sb.Length == siDataLength && defs == []
      ensures selfDoc == if |doc| + 1 <= siDataLength - ALIAS_LEN then doc else []
      ensures nvTableSize == 0 && nvArrayTblSize == 0 && unboundSelector == 0x3FFF
      ensures alias == [0xFF, 0, aliasTableCount] && version == 1 && mtagCount == bindableMTagCount
    {
      var kept := if |doc| + 1 <= siDataLength - ALIAS_LEN then doc else [];
      sb := new byte[siDataLength](_ => 0);
      version, numNetvars, msbNumNetvars, mtagCount := 1, 0, 0, bindableMTagCount;
      length := 6 + |kept| + 1 + ALIAS_LEN;
      descPtr, aliasPtr := 0, |kept| + 1;
      nvTableSize, nvArrayTblSize, unboundSelector := 0, 0, 0x3FFF;
      defs, selfDoc, alias := [], kept, [0xFF, 0, aliasTableCount];
      new;
      CopyIn(sb, 0, kept + [0] + [0xFF, 0, aliasTableCount]);
    }

    /** The size AddNV computes before it touches anything, without the alias field. */
    function SizeNeeded(v: NvDef): nat {
      2 + (if HasExt(v.desc) then
             1 + (if HasMaxRate(v.ext) then 1 else 0) + (if HasRate(v.ext) then 1 else 0)
             + (if HasName(v.ext) then |v.name| + 1 else 0) + (if HasDoc(v.ext) then |v.doc| + 1 else 0)
             + (if HasCount(v.ext) then 2 else 0)
           else 0)
    }

    /** The tests AddNV makes before it changes anything. */
    predicate Fits(v: NvDef)
      reads this
    {
      && v.present
      && nvTableSize + Dim(v) <= NV_TABLE_SIZE
      && !(HasExt(v.desc) && HasName(v.ext) && |v.name| + 1 > 20)
      && !(HasExt(v.desc) && HasDoc(v.ext) && |v.doc| + 1 > MAX_NV_SELF_DOC_LENGTH)
      && aliasPtr + ALIAS_LEN + SizeNeeded(v) <= sb.Length - 1
      && !(v.arrayCnt > 0 && nvArrayTblSize == MAX_NV_ARRAYS)
      && !(v.bind && unboundSelector - Dim(v) + 1 < 0x3000)
      && !(!v.bind && v.selector + Dim(v) - 1 > 0x2FFF)
    }

    /** The loop that moves everything from descPtr up to the alias field two bytes on. */
    method MakeRoom()
      requires descPtr <= aliasPtr && aliasPtr + 2 <= sb.Length
      modifies sb
      ensures sb[..descPtr] == old(sb[..descPtr])
      ensures sb[descPtr + 2..aliasPtr + 2] == old(sb[descPtr..aliasPtr])
    {
      ghost var was := sb[..];
      var p := aliasPtr;
      while p > descPtr
        invariant descPtr <= p <= aliasPtr
        invariant sb[..p] == was[..p]
        invariant sb[p + 2..aliasPtr + 2] == was[p..aliasPtr]
      {
        p := p - 1;
        assert sb[..p + 1][p] == was[..p + 1][p];
        sb[p + 2] := sb[p];
        assert sb[p + 2..aliasPtr + 2] == [was[p]] + sb[p + 3..aliasPtr + 2];
      }
    }

    /** One field of the extension record, if its flag is set. */
    method Put(flag: bool, at: nat, piece: seq<byte>, ghost done: seq<byte>, ghost start: nat) returns (next: nat)
      requires start + |done| == at && at + (if flag then |piece| else 0) <= sb.Length
      requires sb[start..at] == done
      modifies sb
      ensures next == at + (if flag then |piece| else 0)
      ensures sb[start..next] == done + (if flag then piece else [])
      ensures sb[..start] == old(sb[..start])
    {
      next := at;
      if flag {
        CopyIn(sb, at, piece);
        next := at + |piece|;
      }
    }

    /** The extension record, field by field as its flags say. */
    method WriteExt(v: NvDef, start: nat) returns (extPtr: nat)
      requires start + |Ext(v)| <= sb.Length
      modifies sb
      ensures extPtr == start + |Ext(v)|
      ensures sb[start..extPtr] == Ext(v)
      ensures sb[..start] == old(sb[..start])
    {
      extPtr := start;
      if HasExt(v.desc) {
        hide HasMaxRate, HasRate, HasName, HasDoc, HasCount;
        ghost var d0 := [v.ext];
        ghost var d1 := d0 + (if HasMaxRate(v.ext) then [v.maxRate] else []);
        ghost var d2 := d1 + (if HasRate(v.ext) then [v.rate] else []);
        ghost var d3 := d2 + (if HasName(v.ext) then v.name + [0] else []);
        ghost var d4 := d3 + (if HasDoc(v.ext) then v.doc + [0] else []);
        extPtr := Put(true, extPtr, [v.ext], [], start);
        assert [] + [v.ext] == d0;
        extPtr := Put(HasMaxRate(v.ext), extPtr, [v.maxRate], d0, start);
        extPtr := Put(HasRate(v.ext), extPtr, [v.rate], d1, start);
        extPtr := Put(HasName(v.ext), extPtr, v.name + [0], d2, start);
        extPtr := Put(HasDoc(v.ext), extPtr, v.doc + [0], d3, start);
        extPtr := Put(HasCount(v.ext), extPtr, [v.arrayCnt / 256, v.arrayCnt % 256], d4, start);
      }
    }

    /** Makes room behind the descriptors and writes the new one there. */
    method InsertDesc(v: NvDef, ghost before: seq<byte>, ghost moved: seq<byte>)
      requires |before| == descPtr && descPtr + |moved| == aliasPtr && aliasPtr + 2 <= sb.Length
      requires sb[..aliasPtr] == before + moved
      modifies this`descPtr, sb
      ensures descPtr == old(descPtr) + 2
      ensures sb[..aliasPtr + 2] == before + Desc(v) + moved
    {
      assert sb[..descPtr] == sb[..aliasPtr][..descPtr] == before;
      assert sb[descPtr..aliasPtr] == sb[..aliasPtr][descPtr..] == moved;
      MakeRoom();
      CopyIn(sb, descPtr, [v.desc, v.snvtType]);
      descPtr := descPtr + 2;
    }

    /** Appends the extension record and puts the saved alias field behind it. */
    method AppendExt(v: NvDef, saveAlias: seq<byte>, ghost before: seq<byte>)
      requires |saveAlias| == ALIAS_LEN && aliasPtr + 2 + |Ext(v)| + ALIAS_LEN <= sb.Length
      requires sb[..aliasPtr + 2] == before
      modifies this`aliasPtr, this`length, sb
      ensures aliasPtr == old(aliasPtr) + 2 + |Ext(v)| && length == aliasPtr + ALIAS_LEN + 6
      ensures sb[..aliasPtr + ALIAS_LEN] == before + Ext(v) + saveAlias
    {
      hide Ext;
      var extPtr := WriteExt(v, aliasPtr + 2);
      assert sb[..extPtr] == before + Ext(v);
      aliasPtr := extPtr;
      CopyIn(sb, aliasPtr, saveAlias);
      extPtr := extPtr + ALIAS_LEN;
      length := extPtr + 6;
    }

    /** The 16-bit variable count kept in two header bytes. */
    method CountUp()
      requires numNetvars + 256 * msbNumNetvars < 0xFFFF
      modifies this`numNetvars, this`msbNumNetvars
      ensures numNetvars + 256 * msbNumNetvars == old(numNetvars + 256 * msbNumNetvars) + 1
    {
      var total := numNetvars as int + 1;
      var quotient, remainder := total / 256, total % 256;
      numNetvars := remainder;
      msbNumNetvars := (msbNumNetvars + quotient) % 256;
    }

    /** The last part of AddNV: make room, insert the descriptor, append the extension record, put the
        alias field back behind it. */
    method Insert(v: NvDef)
      requires Valid() && aliasPtr + ALIAS_LEN + SizeNeeded(v) <= sb.Length - 1
      requires nvTableSize + Dim(v) <= NV_TABLE_SIZE
      modifies this`descPtr, this`aliasPtr, this`length, this`numNetvars, this`msbNumNetvars, this`defs, this`nvTableSize, sb
      ensures Valid() && defs == old(defs) + [v] && nvTableSize == old(nvTableSize) + Dim(v)
    {
      ExtFits(v);
      AreaSplit(defs, selfDoc, alias);
      AreaSnoc(defs, v, selfDoc, alias);
      hide Ext, Descs, Exts, Area, SizeNeeded;
      ghost var area, moved := Area(defs, selfDoc, alias), (selfDoc + [0]) + Exts(defs);
      assert sb[..aliasPtr] == area[..aliasPtr] == Descs(defs) + moved;
      var saveAlias := sb[aliasPtr..aliasPtr + ALIAS_LEN];
      assert saveAlias == area[aliasPtr..] == alias;
      CountUp();
      InsertDesc(v, Descs(defs), moved);
      AppendExt(v, saveAlias, Descs(defs) + Desc(v) + moved);
      nvTableSize := nvTableSize + Dim(v);
      defs := defs + [v];
    }

    lemma ExtFits(v: NvDef)
      ensures 2 + |Ext(v)| == SizeNeeded(v)
    {}

    /** The tests of AddNV, in its order. */
    method Check(v: NvDef) returns (ok: bool)
      ensures ok == Fits(v)
    {
      hide HasExt, HasName, HasDoc, SizeNeeded, Dim;
      if !v.present { return false; }
      if nvTableSize + Dim(v) > NV_TABLE_SIZE { return false; }
      if HasExt(v.desc) && HasName(v.ext) && |v.name| + 1 > 20 { return false; }
      if HasExt(v.desc) && HasDoc(v.ext) && |v.doc| + 1 > MAX_NV_SELF_DOC_LENGTH { return false; }
      if aliasPtr + ALIAS_LEN + SizeNeeded(v) > sb.Length - 1 { return false; }
      if v.arrayCnt > 0 && nvArrayTblSize == MAX_NV_ARRAYS { return false; }
      if v.bind && unboundSelector - Dim(v) + 1 < 0x3000 {
        return false;
      } else if !v.bind && v.selector + Dim(v) - 1 > 0x2FFF {
        return false;
      }
      ok := true;
    }

    /** The loop over the elements: one selector each for bindable variables, and the value length test. */
    method TakeSelectors(v: NvDef) returns (ok: bool)
      modifies this`unboundSelector
      ensures ok <==> v.nvLength <= MAX_NV_LENGTH
      ensures unboundSelector == old(unboundSelector) - if !v.bind then 0 else if ok then Dim(v) else 1
    {
      var i := 0;
      while i < Dim(v)
        invariant i <= Dim(v) && (i > 0 ==> v.nvLength <= MAX_NV_LENGTH)
        invariant unboundSelector == old(unboundSelector) - if v.bind then i else 0
      {
        if v.bind {
          unboundSelector := unboundSelector - 1;
        }
        if v.nvLength > MAX_NV_LENGTH { return false; }
        i := i + 1;
      }
      ok := true;
    }

    /** `AddNV`: the base index of the new variable, or -1. The area grows by this definition; a rejected
        definition leaves it alone, and leaves everything alone unless it was rejected for its value
        length, which is tested after the first selector has been used up. */
    method AddNV(v: NvDef) returns (index: int)
      requires Valid()
      modifies this, sb
      ensures Valid() && selfDoc == old(selfDoc) && alias == old(alias)
      ensures index != -1 <==> old(Fits(v)) && v.nvLength <= MAX_NV_LENGTH
      ensures index != -1 ==> index == old(nvTableSize) && defs == old(defs) + [v]
      ensures index != -1 ==> unboundSelector == old(unboundSelector) - if v.bind then Dim(v) else 0
      ensures index == -1 ==> sb[..] == old(sb[..]) && Header() == old(Header()) && defs == old(defs)
      ensures index == -1 ==> nvTableSize == old(nvTableSize) && nvArrayTblSize == old(nvArrayTblSize)
      ensures index == -1 ==>
        (unboundSelector == old(unboundSelector) <==> !(old(Fits(v)) && v.bind))
    {
      hide Area, Dim, SizeNeeded, Header;
      var ok := Check(v);
      if !ok { return -1; }
      ok := TakeSelectors(v);
      if !ok { return -1; }
      if v.arrayCnt > 0 {
        nvArrayTblSize := nvArrayTblSize + 1;
      }
      Insert(v);
      index := nvTableSize - Dim(v);
    }

    /** The copies of `HandleNMQuerySIData` for a request of the right size whose answer fits the response
        buffer: a window that runs from the header into the area is put together from both. */
    method QueryWindow(offset: nat, count: byte) returns (data: seq<byte>)
      requires Valid() && offset + count <= HEADER_LEN + sb.Length
      ensures data == (Header() + sb[..])[offset..offset + count]
      ensures offset + count <= HEADER_LEN + |Area(defs, selfDoc, alias)| ==>
        data == (Header() + Area(defs, selfDoc, alias))[offset..offset + count]
    {
      hide Area, Header;
      var header := Header();
      if offset + count < 6 {
        data := header[offset..offset + count];
        InFront(header, sb[..], offset, offset + count);
      } else if offset < 6 {
        data := header[offset..] + sb[..count - (6 - offset)];
        Window(header, sb[..], offset, offset + count);
      } else {
        data := sb[offset - 6..offset - 6 + count];
        Behind(header, sb[..], offset, offset + count);
      }
      ghost var area := Area(defs, selfDoc, alias);
      if offset + count <= HEADER_LEN + |area| {
        WindowOfPrefix(header, sb[..], area, offset, offset + count);
      }
    }
  }

  lemma InFront(h: seq<byte>, s: seq<byte>, from: nat, to: nat)
    requires from <= to <= |h|
    ensures (h + s)[from..to] == h[from..to]
  {}

  lemma Behind(h: seq<byte>, s: seq<byte>, from: nat, to: nat)
    requires |h| <= from <= to <= |h| + |s|
    ensures (h + s)[from..to] == s[from - |h|..to - |h|]
  {}

  lemma WindowOfPrefix(h: seq<byte>, s: seq<byte>, t: seq<byte>, from: nat, to: nat)
    requires t <= s && from <= to <= |h| + |t|
    ensures (h + s)[from..to] == (h + t)[from..to]
  {
    assert (h + s)[..|h| + |t|] == h + t;
    assert (h + s)[from..to] == (h + s)[..|h| + |t|][from..to];
  }

  lemma Window(h: seq<byte>, s: seq<byte>, from: nat, to: nat)
    requires |h| == HEADER_LEN && from < HEADER_LEN <= to <= HEADER_LEN + |s|
    ensures (h + s)[from..to] == h[from..] + s[..to - HEADER_LEN]
  {
    var w, v := (h + s)[from..to], h[from..] + s[..to - HEADER_LEN];
    forall k | 0 <= k < |w| ensures w[k] == v[k] {
      assert w[k] == (h + s)[from + k];
      if from + k >= HEADER_LEN { assert v[k] == s[from + k - HEADER_LEN]; }
    }
  }

  lemma AreaSplit(vs: seq<NvDef>, selfDoc: seq<byte>, alias: seq<byte>)
    ensures var area, moved := Area(vs, selfDoc, alias), (selfDoc + [0]) + Exts(vs);
      area == Descs(vs) + moved + alias && |Descs(vs)| == 2 * |vs|
  {
    hide Descs, Exts;
  }

  lemma AreaSnoc(vs: seq<NvDef>, v: NvDef, selfDoc: seq<byte>, alias: seq<byte>)
    ensures var moved := (selfDoc + [0]) + Exts(vs);
      Area(vs + [v], selfDoc, alias) == Descs(vs) + Desc(v) + moved + Ext(v) + alias
  {
    hide Ext, Desc;
    assert (vs + [v])[..|vs + [v]| - 1] == vs;
  }

  // ------------------------------------------------------------------
  // Reading the area back
  // ------------------------------------------------------------------

  /** What a network tool learns about one variable; -1 and the empty string stand for absent fields. */
  datatype Info = Info(desc: byte, snvtType: byte, ext: int, maxRate: int, rate: int,
                       name: seq<byte>, doc: seq<byte>, count: int)

  function View(v: NvDef): Info {
    if !HasExt(v.desc) then Info(v.desc, v.snvtType, -1, -1, -1, [], [], -1)
    else
      Info(v.desc, v.snvtType, v.ext,
           if HasMaxRate(v.ext) then v.maxRate else -1,
           if HasRate(v.ext) then v.rate else -1,
           if HasName(v.ext) then v.name else [],
           if HasDoc(v.ext) then v.doc else [],
           if HasCount(v.ext) then v.arrayCnt else -1)
  }

  function Views(vs: seq<NvDef>): seq<Info> {
    if vs == [] then [] else [View(vs[0])] + Views(vs[1..])
  }

  /** A null-terminated string and what follows it. */
  function ReadString(b: seq<byte>): (seq<byte>, seq<byte>) {
    if b == [] then ([], [])
    else if b[0] == 0 then ([], b[1..])
    else
      var (s, rest) := ReadString(b[1..]);
      ([b[0]] + s, rest)
  }

  function ReadByte(flag: bool, b: seq<byte>): (int, seq<byte>) {
    if flag && b != [] then (b[0], b[1..]) else (-1, b)
  }

  function ReadText(flag: bool, b: seq<byte>): (seq<byte>, seq<byte>) {
    if flag then ReadString(b) else ([], b)
  }

  function ReadCount(flag: bool, b: seq<byte>): (int, seq<byte>) {
    if flag && |b| >= 2 then (b[0] as int * 256 + b[1], b[2..]) else (-1, b)
  }

  /** One extension record, if the descriptor announces one. */
  function ReadExt(desc: byte, snvtType: byte, b: seq<byte>): (Info, seq<byte>) {
    if !HasExt(desc) || b == [] then (Info(desc, snvtType, -1, -1, -1, [], [], -1), b)
    else
      var ext := b[0];
      var (maxRate, b1) := ReadByte(HasMaxRate(ext), b[1..]);
      var (rate, b2) := ReadByte(HasRate(ext), b1);
      var (name, b3) := ReadText(HasName(ext), b2);
      var (doc, b4) := ReadText(HasDoc(ext), b3);
      var (count, b5) := ReadCount(HasCount(ext), b4);
      (Info(desc, snvtType, ext, maxRate, rate, name, doc, count), b5)
  }

  /** The extension records for n descriptors, and what follows them. */
  function ReadExts(descs: seq<byte>, n: nat, b: seq<byte>): (seq<Info>, seq<byte>)
    requires |descs| >= 2 * n
  {
    if n == 0 then ([], b)
    else
      var (info, rest) := ReadExt(descs[0], descs[1], b);
      var (more, last) := ReadExts(descs[2..], n - 1, rest);
      ([info] + more, last)
  }

  /** The whole area, given the number of variables from the header: variables, node self-documentation
      and what is left for the alias field. */
  function ReadArea(n: nat, b: seq<byte>): (seq<Info>, seq<byte>, seq<byte>)
    requires |b| >= 2 * n
  {
    var (doc, rest) := ReadString(b[2 * n..]);
    var (infos, last) := ReadExts(b[..2 * n], n, rest);
    (infos, doc, last)
  }

  lemma {:induction false} StringReadsBack(s: seq<byte>, rest: seq<byte>)
    requires 0 !in s
    ensures ReadString(s + [0] + rest) == (s, rest)
  {
    var b := s + [0] + rest;
    if s == [] {
      assert b[1..] == rest;
    } else {
      assert b[1..] == s[1..] + [0] + rest && [s[0]] + s[1..] == s;
      StringReadsBack(s[1..], rest);
    }
  }

  lemma TextReadsBack(flag: bool, s: seq<byte>, rest: seq<byte>)
    requires 0 !in s
    ensures ReadText(flag, (if flag then s + [0] else []) + rest) == (if flag then s else [], rest)
  {
    if flag { StringReadsBack(s, rest); } else { assert [] + rest == rest; }
  }

  lemma ByteReadsBack(flag: bool, x: byte, rest: seq<byte>)
    ensures ReadByte(flag, (if flag then [x] else []) + rest) == (if flag then x else -1, rest)
  {
    if flag { assert ([x] + rest)[1..] == rest; } else { assert [] + rest == rest; }
  }

  lemma CountReadsBack(flag: bool, c: nat, rest: seq<byte>)
    requires c < 0x1_0000
    ensures ReadCount(flag, (if flag then [c / 256, c % 256] else []) + rest) == (if flag then c else -1, rest)
  {
    if flag {
      var hi: byte, lo: byte := c / 256, c % 256;
      assert ([hi, lo] + rest)[2..] == rest && c == 256 * hi + lo;
    } else {
      assert [] + rest == rest;
    }
  }

  lemma PeelFirst(x: byte, p1: seq<byte>, p2: seq<byte>, p3: seq<byte>, p4: seq<byte>, p5: seq<byte>, rest: seq<byte>)
    ensures ([x] + p1 + p2 + p3 + p4 + p5 + rest)[0] == x
    ensures ([x] + p1 + p2 + p3 + p4 + p5 + rest)[1..] == p1 + (p2 + (p3 + (p4 + (p5 + rest))))
  {}

  lemma ExtReadsBack(v: NvDef, rest: seq<byte>)
    ensures ReadExt(v.desc, v.snvtType, Ext(v) + rest) == (View(v), rest)
  {
    if HasExt(v.desc) {
      hide ReadByte, ReadText, ReadCount, HasMaxRate, HasRate, HasName, HasDoc, HasCount;
      var p1 := if HasMaxRate(v.ext) then [v.maxRate] else [];
      var p2 := if HasRate(v.ext) then [v.rate] else [];
      var p3 := if HasName(v.ext) then v.name + [0] else [];
      var p4 := if HasDoc(v.ext) then v.doc + [0] else [];
      var p5: seq<byte> := if HasCount(v.ext) then [v.arrayCnt / 256, v.arrayCnt % 256] else [];
      var b := Ext(v) + rest;
      assert b == [v.ext] + p1 + p2 + p3 + p4 + p5 + rest;
      PeelFirst(v.ext, p1, p2, p3, p4, p5, rest);
      hide Ext;
      ByteReadsBack(HasMaxRate(v.ext), v.maxRate, p2 + (p3 + (p4 + (p5 + rest))));
      ByteReadsBack(HasRate(v.ext), v.rate, p3 + (p4 + (p5 + rest)));
      TextReadsBack(HasName(v.ext), v.name, p4 + (p5 + rest));
      TextReadsBack(HasDoc(v.ext), v.doc, p5 + rest);
      CountReadsBack(HasCount(v.ext), v.arrayCnt, rest);
    } else {
      assert Ext(v) + rest == rest;
    }
  }

  lemma {:induction false} DescsCons(vs: seq<NvDef>)
    requires vs != []
    ensures Descs(vs) == Desc(vs[0]) + Descs(vs[1..])
    decreases |vs|
  {
    hide Desc;
    if |vs| > 1 {
      var front, last := vs[..|vs| - 1], vs[|vs| - 1];
      DescsCons(front);
      assert vs[1..][..|vs[1..]| - 1] == front[1..] && vs[1..][|vs[1..]| - 1] == last;
    }
  }

  lemma {:induction false} ExtsCons(vs: seq<NvDef>)
    requires vs != []
    ensures Exts(vs) == Ext(vs[0]) + Exts(vs[1..])
    decreases |vs|
  {
    hide Ext;
    if |vs| > 1 {
      var front, last := vs[..|vs| - 1], vs[|vs| - 1];
      ExtsCons(front);
      assert vs[1..][..|vs[1..]| - 1] == front[1..] && vs[1..][|vs[1..]| - 1] == last;
    }
  }

  lemma FirstDesc(vs: seq<NvDef>)
    requires vs != []
    ensures Descs(vs)[0] == vs[0].desc && Descs(vs)[1] == vs[0].snvtType && Descs(vs)[2..] == Descs(vs[1..])
  {
    DescsCons(vs);
    hide Descs;
  }

  lemma {:induction false} ExtsReadBack(vs: seq<NvDef>, rest: seq<byte>)
    ensures ReadExts(Descs(vs), |vs|, Exts(vs) + rest) == (Views(vs), rest)
    decreases |vs|
  {
    hide *;
    if vs == [] {
      NoExts(rest);
    } else {
      ExtsReadBack(vs[1..], rest);
      OneMoreExt(vs, rest);
    }
  }

  lemma NoExts(rest: seq<byte>)
    ensures ReadExts(Descs([]), 0, Exts([]) + rest) == (Views([]), rest)
  {
    assert Exts([]) == [] && [] + rest == rest;
  }

  lemma OneMoreExt(vs: seq<NvDef>, rest: seq<byte>)
    requires vs != []
    requires ReadExts(Descs(vs[1..]), |vs[1..]|, Exts(vs[1..]) + rest) == (Views(vs[1..]), rest)
    ensures ReadExts(Descs(vs), |vs|, Exts(vs) + rest) == (Views(vs), rest)
  {
    assert Views(vs) == [View(vs[0])] + Views(vs[1..]);
    hide *;
    FirstDesc(vs);
    ExtsCons(vs);
    var e, more := Exts(vs), Exts(vs[1..]) + rest;
    Regroup(e, Ext(vs[0]), Exts(vs[1..]), rest);
    ExtReadsBack(vs[0], more);
    ReadExtsCons(Descs(vs), |vs|, e + rest);
  }

  lemma Regroup(e: seq<byte>, a: seq<byte>, b: seq<byte>, c: seq<byte>)
    requires e == a + b
    ensures e + c == a + (b + c)
  {}

  lemma ReadExtsCons(descs: seq<byte>, n: nat, b: seq<byte>)
    requires 0 < n && |descs| >= 2 * n
    ensures var first := ReadExt(descs[0], descs[1], b);
      var more := ReadExts(descs[2..], n - 1, first.1);
      ReadExts(descs, n, b) == ([first.0] + more.0, more.1)
  {}

  /** A tool that knows only the number of variables gets back every registered definition, the node
      self-documentation and the alias field. */
  lemma AreaReadsBack(vs: seq<NvDef>, selfDoc: seq<byte>, alias: seq<byte>)
    requires 0 !in selfDoc
    ensures |Area(vs, selfDoc, alias)| >= 2 * |vs|
    ensures ReadArea(|vs|, Area(vs, selfDoc, alias)) == (Views(vs), selfDoc, alias)
  {
    hide Descs, Exts, Area, ReadString, ReadExts, Views;
    AreaSplit(vs, selfDoc, alias);
    var area := Area(vs, selfDoc, alias);
    assert area[..2 * |vs|] == Descs(vs);
    assert area[2 * |vs|..] == selfDoc + [0] + (Exts(vs) + alias);
    StringReadsBack(selfDoc, Exts(vs) + alias);
    ExtsReadBack(vs, alias);
  }

  /** A tool that has read the header knows the length of the area and the number of variables, and so recovers
      the whole of what was registered from what lies behind it. */
  lemma SelfIdReadsBack(a: SelfIdArea)
    requires a.Valid() && 0 !in a.selfDoc
    ensures var h := a.Header();
      var size, count := 256 * h[0] + h[1] - HEADER_LEN, h[2] + 256 * h[4];
      && 2 * count <= size <= a.sb.Length && h[3] == a.version && h[5] == a.mtagCount
      && |a.defs| == count && ReadArea(count, a.sb[..size]) == (Views(a.defs), a.selfDoc, a.alias)
  {
    AreaReadsBack(a.defs, a.selfDoc, a.alias);
    TwoBytes(a.length);
    hide Area, ReadArea, Views;
    assert a.Header()[0] == a.length / 256 % 256 && a.Header()[1] == a.length % 256;
  }

  lemma TwoBytes(n: nat)
    requires n < 0x1_0000
    ensures 256 * (n / 256 % 256) + n % 256 == n
  {}

  /** What AddNV accepts, in terms of what is there: a definition for which the table, the longer area (which has to
      leave one byte), the array table and the selectors have room, with a name below 20 and a documentation
      string below 1023 characters. */
  lemma FitsIff(a: SelfIdArea, v: NvDef)
    requires a.Valid()
    ensures a.Fits(v) <==>
      && v.present
      && a.nvTableSize + (if v.arrayCnt == 0 then 1 else v.arrayCnt) <= 254
      && |Area(a.defs + [v], a.selfDoc, a.alias)| < a.sb.Length
      && (HasExt(v.desc) && HasName(v.ext) ==> |v.name| < 20)
      && (HasExt(v.desc) && HasDoc(v.ext) ==> |v.doc| < 1023)
      && (v.arrayCnt > 0 ==> a.nvArrayTblSize != 10)
      && forall i :: 0 <= i < (if v.arrayCnt == 0 then 1 else v.arrayCnt) ==> HasSelector(a.unboundSelector, v, i)
  {
    a.ExtFits(v);
    AreaGrows(a.defs, v, a.selfDoc, a.alias);
    SelectorRange(a.unboundSelector, v);
    assert Dim(v) == if v.arrayCnt == 0 then 1 else v.arrayCnt;
    hide Area, Ext, HasExt, HasName, HasDoc, HasSelector;
  }

  /** Element i of a variable gets a selector of the range for its kind: from the one that is next downwards for
      bindable variables, upwards from the given one for others. */
  predicate HasSelector(unbound: int, v: NvDef, i: nat) {
    if v.bind then unbound - i >= 0x3000 else v.selector + i < 0x3000
  }

  lemma SelectorRange(unbound: int, v: NvDef)
    ensures (forall i :: 0 <= i < Dim(v) ==> HasSelector(unbound, v, i))
      <==> if v.bind then unbound - Dim(v) + 1 >= 0x3000 else v.selector + Dim(v) - 1 <= 0x2FFF
  {
    var last := Dim(v) - 1;
    assert HasSelector(unbound, v, last) <==> if v.bind then unbound - last >= 0x3000 else v.selector + last < 0x3000;
  }

  lemma AreaGrows(vs: seq<NvDef>, v: NvDef, selfDoc: seq<byte>, alias: seq<byte>)
    ensures |Area(vs + [v], selfDoc, alias)| == |Area(vs, selfDoc, alias)| + 2 + |Ext(v)|
  {
    var ws := vs + [v];
    assert ws[..|ws| - 1] == vs && ws[|ws| - 1] == v;
    hide Ext;
  }
}
