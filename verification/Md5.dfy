/** The streaming MD5 of lcs_iup.c against RFC 1321 sections 3.1 to 3.5. The compression of one 16-word
    block (section 3.4) is a parameter; everything around it is modelled, on hosts of either byte order. */
module Md5 {
  import opened Bytes

  /** The four chaining words A, B, C, D. */
  datatype Chain = Chain(a: u32, b: u32, c: u32, d: u32)

  type Compress = (Chain, seq<u32>) -> Chain

  // ------------------------------------------------------------------
  // RFC 1321
  // ------------------------------------------------------------------

  /** Section 3.3: the initial value of the buffer. */
  const INIT := Chain(0x67452301, 0xefcdab89, 0x98badcfe, 0x10325476)

  /** A word is a group of four bytes, low-order byte first (section 2). */
  function Word(b0: byte, b1: byte, b2: byte, b3: byte): u32 {
    b0 as int + 256 * b1 + 65536 * b2 + 16777216 * b3
  }

  function WordBytes(w: u32): (b: seq<byte>)
    ensures |b| == 4
  {
    [w % 256, w / 256 % 256, w / 256 / 256 % 256, w / 256 / 256 / 256]
  }

  lemma WordRoundTrip(w: u32)
    ensures var b := WordBytes(w); Word(b[0], b[1], b[2], b[3]) == w
  {}

  lemma BytesRoundTrip(b0: byte, b1: byte, b2: byte, b3: byte)
    ensures WordBytes(Word(b0, b1, b2, b3)) == [b0, b1, b2, b3]
  {
    var w := Word(b0, b1, b2, b3);
    assert w / 256 == b1 as int + 256 * b2 + 65536 * b3;
    assert w / 256 / 256 == b2 as int + 256 * b3;
  }

  function Words(block: seq<byte>): (w: seq<u32>)
    requires |block| == 64
    ensures |w| == 16
  {
    seq(16, i requires 0 <= i < 16 => Word(block[4 * i], block[4 * i + 1], block[4 * i + 2], block[4 * i + 3]))
  }

  /** Sections 3.1 and 3.2: a one bit, zeros to 56 modulo 64 bytes, and the low-order 64 bits of the
      length in bits, low-order word first. */
  function Padded(m: seq<byte>): seq<byte> {
    var bits := 8 * |m| % 0x1_0000_0000_0000_0000;
    m + [0x80] + seq((55 - |m|) % 64, _ => 0) + WordBytes(bits % 0x1_0000_0000) + WordBytes(bits / 0x1_0000_0000)
  }

  /** Section 3.4: every whole 64-byte block in turn. Bytes behind the last whole block do not count. */
  function Blocks(f: Compress, chain: Chain, m: seq<byte>): Chain
    decreases |m|
  {
    if |m| < 64 then chain else Blocks(f, f(chain, Words(m[..64])), m[64..])
  }

  /** Section 3.5: the digest is A, B, C, D, low-order byte first. */
  function Output(c: Chain): seq<byte> {
    WordBytes(c.a) + WordBytes(c.b) + WordBytes(c.c) + WordBytes(c.d)
  }

  function Digest(f: Compress, m: seq<byte>): seq<byte> {
    Output(Blocks(f, INIT, Padded(m)))
  }

  // ------------------------------------------------------------------
  // Cutting a message anywhere
  // ------------------------------------------------------------------

  lemma {:induction false} BlocksConcat(f: Compress, chain: Chain, m: seq<byte>, n: seq<byte>)
    requires |m| % 64 == 0
    ensures Blocks(f, chain, m + n) == Blocks(f, Blocks(f, chain, m), n)
    decreases |m|
  {
    if |m| == 0 {
      assert m + n == n;
    } else {
      assert (m + n)[..64] == m[..64] && (m + n)[64..] == m[64..] + n;
      BlocksConcat(f, f(chain, Words(m[..64])), m[64..], n);
    }
  }

  /** One more block behind whole blocks. */
  lemma OneMoreBlock(f: Compress, chain: Chain, m: seq<byte>, block: seq<byte>)
    requires |m| % 64 == 0 && |block| == 64
    ensures Blocks(f, chain, m + block) == f(Blocks(f, chain, m), Words(block))
  {
    BlocksConcat(f, chain, m, block);
    assert block[..64] == block && |block[64..]| == 0;
  }

  /** The part of a message that has gone through the compression, and the part still waiting. */
  ghost function Whole(m: seq<byte>): seq<byte> {
    m[..|m| - |m| % 64]
  }

  ghost function Rest(m: seq<byte>): (r: seq<byte>)
    ensures |r| == |m| % 64
  {
    m[|m| - |m| % 64..]
  }

  lemma WholeIsEnough(f: Compress, chain: Chain, m: seq<byte>)
    ensures Blocks(f, chain, m) == Blocks(f, chain, Whole(m))
  {
    assert m == Whole(m) + Rest(m);
    BlocksConcat(f, chain, Whole(m), Rest(m));
  }

  /** The two words of the length field. */
  ghost function LengthBytes(m: seq<byte>): (b: seq<byte>)
    ensures |b| == 8
  {
    var bits := 8 * |m| % 0x1_0000_0000_0000_0000;
    WordBytes(bits % 0x1_0000_0000) + WordBytes(bits / 0x1_0000_0000)
  }

  function Zeros(n: nat): (z: seq<byte>)
    ensures |z| == n && forall k :: 0 <= k < n ==> z[k] == 0
  {
    seq(n, _ => 0)
  }

  lemma PaddingLength(n: nat)
    ensures n % 64 < 56 ==> (55 - n) % 64 == 55 - n % 64
    ensures n % 64 >= 56 ==> (55 - n) % 64 == 119 - n % 64
  {}

  lemma PaddedIs(m: seq<byte>)
    ensures Padded(m) == Whole(m) + (Rest(m) + [0x80] + Zeros((55 - |m|) % 64) + LengthBytes(m))
  {
    hide WordBytes;
    assert m == Whole(m) + Rest(m);
  }

  /** With fewer than 56 bytes waiting, one block ends the message. */
  lemma PaddedOneBlock(f: Compress, m: seq<byte>)
    requires |m| % 64 < 56
    ensures var last := Rest(m) + [0x80] + Zeros(55 - |m| % 64) + LengthBytes(m);
      |last| == 64 && Blocks(f, INIT, Padded(m)) == f(Blocks(f, INIT, m), Words(last))
  {
    hide Blocks, Padded, LengthBytes, Words;
    PaddingLength(|m|);
    PaddedIs(m);
    WholeIsEnough(f, INIT, m);
    OneMoreBlock(f, INIT, Whole(m), Rest(m) + [0x80] + Zeros(55 - |m| % 64) + LengthBytes(m));
  }

  /** With 56 or more, the padding takes two. */
  lemma PaddedTwoBlocks(f: Compress, m: seq<byte>)
    requires |m| % 64 >= 56
    ensures var first, last := Rest(m) + [0x80] + Zeros(63 - |m| % 64), Zeros(56) + LengthBytes(m);
      |first| == 64 && |last| == 64 &&
      Blocks(f, INIT, Padded(m)) == f(f(Blocks(f, INIT, m), Words(first)), Words(last))
  {
    hide Blocks, Padded, LengthBytes, Words;
    var first, last := Rest(m) + [0x80] + Zeros(63 - |m| % 64), Zeros(56) + LengthBytes(m);
    PaddingLength(|m|);
    PaddedIs(m);
    assert Zeros((55 - |m|) % 64) == Zeros(63 - |m| % 64) + Zeros(56);
    assert Padded(m) == (Whole(m) + first) + last;
    WholeIsEnough(f, INIT, m);
    OneMoreBlock(f, INIT, Whole(m), first);
    OneMoreBlock(f, INIT, Whole(m) + first, last);
  }

  // ------------------------------------------------------------------
  // Words in memory, in the host's byte order
  // ------------------------------------------------------------------

  function Store(big: bool, w: u32): (b: seq<byte>)
    ensures |b| == 4
  {
    var b := WordBytes(w);
    if big then [b[3], b[2], b[1], b[0]] else b
  }

  /** The i-th word of a buffer as the host reads it. */
  function LoadAt(big: bool, b: seq<byte>, i: nat): u32
    requires 4 * i + 4 <= |b|
  {
    if big then Word(b[4 * i + 3], b[4 * i + 2], b[4 * i + 1], b[4 * i]) else LittleAt(b, i)
  }

  /** The block buffer as MD5Transform reads it. */
  function HostWords(big: bool, b: seq<byte>): (w: seq<u32>)
    requires |b| == 64
    ensures |w| == 16
  {
    seq(16, i requires 0 <= i < 16 => LoadAt(big, b, i))
  }

  /** The i-th word of a buffer, low-order byte first. */
  function LittleAt(b: seq<byte>, i: nat): u32
    requires 4 * i + 4 <= |b|
  {
    Word(b[4 * i], b[4 * i + 1], b[4 * i + 2], b[4 * i + 3])
  }

  lemma LoadStore(big: bool, w: u32, b: seq<byte>, i: nat)
    requires 4 * i + 4 <= |b| && b[4 * i..4 * i + 4] == Store(big, w)
    ensures LoadAt(big, b, i) == w
  {
    WordRoundTrip(w);
    var s := b[4 * i..4 * i + 4];
    assert b[4 * i] == s[0] && b[4 * i + 1] == s[1] && b[4 * i + 2] == s[2] && b[4 * i + 3] == s[3];
  }

  /** Storing a word leaves the words before it alone. */
  lemma EarlierWords(big: bool, b: seq<byte>, b': seq<byte>, i: nat, k: nat)
    requires |b| == |b'| && k < i && 4 * i + 4 <= |b| && b[..4 * i] == b'[..4 * i]
    ensures LoadAt(big, b', k) == LoadAt(big, b, k)
  {
    assert forall j :: 4 * k <= j < 4 * k + 4 ==> b[j] == b[..4 * i][j] == b'[..4 * i][j] == b'[j];
  }

  /** The first i words of `was` have been turned into host order. */
  ghost predicate Turned(big: bool, was: seq<byte>, now: seq<byte>, i: nat)
    requires 4 * i <= |was| == |now|
  {
    && (forall k :: 0 <= k < i ==> LoadAt(big, now, k) == LittleAt(was, k))
    && now[4 * i..] == was[4 * i..]
  }

  lemma TurnedNone(big: bool, was: seq<byte>)
    ensures Turned(big, was, was, 0)
  {}

  lemma TurnedStep(big: bool, was: seq<byte>, now: seq<byte>, next: seq<byte>, i: nat)
    requires 4 * i + 4 <= |was| == |now| && Turned(big, was, now, i)
    requires next == now[..4 * i] + Store(big, LittleAt(now, i)) + now[4 * i + 4..]
    ensures Turned(big, was, next, i + 1)
  {
    hide Word, WordBytes, LoadAt, LittleAt, Store;
    TailWord(was, now, i);
    assert next[4 * i..4 * i + 4] == Store(big, LittleAt(was, i));
    LoadStore(big, LittleAt(was, i), next, i);
    forall k | 0 <= k < i ensures LoadAt(big, next, k) == LittleAt(was, k) {
      EarlierWords(big, now, next, i, k);
    }
    ShorterTail(was, now, 4 * i);
    assert next[4 * i + 4..] == now[4 * i + 4..];
  }

  lemma TailWord(was: seq<byte>, now: seq<byte>, i: nat)
    requires 4 * i + 4 <= |was| == |now| && now[4 * i..] == was[4 * i..]
    ensures LittleAt(now, i) == LittleAt(was, i)
  {
    assert forall k :: 4 * i <= k < |was| ==> now[k] == now[4 * i..][k - 4 * i] == was[4 * i..][k - 4 * i] == was[k];
  }

  lemma ShorterTail(was: seq<byte>, now: seq<byte>, at: nat)
    requires at + 4 <= |was| == |now| && now[at..] == was[at..]
    ensures now[at + 4..] == was[at + 4..]
  {
    assert now[at + 4..] == now[at..][4..] && was[at + 4..] == was[at..][4..];
  }

  /** `ByteReverse`: the first `longs` groups of four bytes become words in the host's own order. */
  method ByteReverse(big: bool, buf: array<byte>, longs: nat)
    requires 1 <= longs && 4 * longs <= buf.Length
    modifies buf
    ensures Turned(big, old(buf[..]), buf[..], longs)
  {
    hide Word, WordBytes, LoadAt, Turned;
    ghost var was := buf[..];
    var i := 0;
    TurnedNone(big, was);
    while i < longs
      invariant i <= longs && Turned(big, was, buf[..], i)
    {
      var at := 4 * i;
      var t := Word(buf[at], buf[at + 1], buf[at + 2], buf[at + 3]);
      ghost var before := buf[..];
      CopyIn(buf, at, Store(big, t));
      TurnedStep(big, was, before, buf[..], i);
      i := i + 1;
    }
  }

  /** A word read low-order first from where a word was stored in host order, stored again in host
      order, leaves its bytes low-order first whatever that order is. */
  lemma OutputBytes(big: bool, was: seq<byte>, now: seq<byte>, i: nat, w: u32)
    requires |was| == |now| && 4 * i + 4 <= |was| && was[4 * i..4 * i + 4] == Store(big, w)
    requires LoadAt(big, now, i) == LittleAt(was, i)
    ensures now[4 * i..4 * i + 4] == WordBytes(w)
  {
    var s, n := was[4 * i..4 * i + 4], now[4 * i..4 * i + 4];
    assert was[4 * i] == s[0] && was[4 * i + 1] == s[1] && was[4 * i + 2] == s[2] && was[4 * i + 3] == s[3];
    assert now[4 * i] == n[0] && now[4 * i + 1] == n[1] && now[4 * i + 2] == n[2] && now[4 * i + 3] == n[3];
    BytesRoundTrip(s[0], s[1], s[2], s[3]);
    if big { BytesRoundTrip(n[3], n[2], n[1], n[0]); } else { BytesRoundTrip(n[0], n[1], n[2], n[3]); }
  }

  lemma Nothing(f: Compress)
    ensures Blocks(f, INIT, []) == INIT && Rest([]) == []
  {}

  /** Fewer bytes than the waiting block has room for. */
  lemma Short(f: Compress, m: seq<byte>, buf: seq<byte>)
    requires |m| % 64 + |buf| < 64
    ensures |m + buf| % 64 == |m| % 64 + |buf|
    ensures Rest(m + buf) == Rest(m) + buf && Blocks(f, INIT, m + buf) == Blocks(f, INIT, m)
  {
    hide Blocks;
    var q := |m| / 64;
    assert |m + buf| == 64 * q + (|m| % 64 + |buf|);
    assert Whole(m + buf) == Whole(m);
    WholeIsEnough(f, INIT, m);
    WholeIsEnough(f, INIT, m + buf);
  }

  /** The two words count 8 * total bits, modulo 2^64. */
  ghost predicate Counted(lo: u32, hi: u32, total: nat) {
    lo + 0x1_0000_0000 * hi == 8 * total % 0x1_0000_0000_0000_0000
  }

  lemma CountedNothing()
    ensures Counted(0, 0, 0)
  {}

  lemma RemainderIs(x: nat, q: int, r: nat)
    requires x == 0x1_0000_0000_0000_0000 * q + r && r < 0x1_0000_0000_0000_0000
    ensures x % 0x1_0000_0000_0000_0000 == r
  {}

  /** The 64-bit count in two words, before and after n more bytes: the carry is taken exactly when the
      low word wrapped. */
  lemma CountBits(total: nat, n: nat, lo: u32, hi: u32)
    requires n < 256 && Counted(lo, hi, total)
    ensures var l := (lo + 8 * n) % 0x1_0000_0000;
      Counted(l, if l < lo then (hi + 1) % 0x1_0000_0000 else hi, total + n)
  {
    var q := 8 * total / 0x1_0000_0000_0000_0000;
    var l := (lo + 8 * n) % 0x1_0000_0000;
    if lo + 8 * n < 0x1_0000_0000 {
      RemainderIs(8 * (total + n), q, l + 0x1_0000_0000 * hi);
    } else {
      assert l == lo + 8 * n - 0x1_0000_0000 < lo;
      if hi + 1 < 0x1_0000_0000 {
        RemainderIs(8 * (total + n), q, l + 0x1_0000_0000 * (hi + 1));
      } else {
        RemainderIs(8 * (total + n), q + 1, l);
      }
    }
  }

  /** The number of waiting bytes can be read off the low word alone. */
  lemma WaitingBytes(total: nat, lo: u32, hi: u32)
    requires Counted(lo, hi, total)
    ensures lo / 8 % 64 == total % 64
  {
    var q := 8 * total / 0x1_0000_0000_0000_0000;
    assert lo == 8 * (total - 0x2000_0000_0000_0000 * q - 0x2000_0000 * hi);
    assert lo / 8 == total - 64 * (0x80_0000_0000_0000 * q + 0x80_0000 * hi);
  }

  lemma TurnedWords(big: bool, was: seq<byte>, now: seq<byte>)
    requires |was| == |now| == 64 && Turned(big, was, now, 16)
    ensures HostWords(big, now) == Words(was)
  {
    hide Word, LoadAt;
    forall i | 0 <= i < 16 ensures HostWords(big, now)[i] == Words(was)[i] {
      assert Words(was)[i] == LittleAt(was, i);
    }
  }

  lemma SameWord(a: seq<byte>, b: seq<byte>, n: nat, i: nat)
    requires 4 * i + 4 <= n <= |a| && n <= |b| && a[..n] == b[..n]
    ensures LittleAt(a, i) == LittleAt(b, i)
  {
    assert forall k :: 0 <= k < n ==> a[k] == a[..n][k] == b[..n][k] == b[k];
  }

  lemma LengthWords(m: seq<byte>, block: seq<byte>, lo: u32, hi: u32)
    requires |block| == 64 && block[56..] == LengthBytes(m) && Counted(lo, hi, |m|)
    ensures LittleAt(block, 14) == lo && LittleAt(block, 15) == hi
  {
    var bits := 8 * |m| % 0x1_0000_0000_0000_0000;
    assert bits % 0x1_0000_0000 == lo && bits / 0x1_0000_0000 == hi;
    WordRoundTrip(lo);
    WordRoundTrip(hi);
    var l := block[56..];
    assert forall k :: 56 <= k < 64 ==> block[k] == l[k - 56];
  }

  /** The words of the last block: 14 turned around in the buffer, two stored as they are counted. */
  lemma LastWords(big: bool, m: seq<byte>, front: seq<byte>, was: seq<byte>, turned: seq<byte>, now: seq<byte>,
                  lo: u32, hi: u32)
    requires |was| == |turned| == |now| == 64 && |front| == 56 && was[..56] == front
    requires Turned(big, was, turned, 14) && Counted(lo, hi, |m|)
    requires now == turned[..56] + Store(big, lo) + Store(big, hi)
    ensures HostWords(big, now) == Words(front + LengthBytes(m))
  {
    var want := front + LengthBytes(m);
    LengthWords(m, want, lo, hi);
    hide Word, WordBytes, LoadAt, Store, LengthBytes, Counted, LittleAt;
    assert now[56..60] == Store(big, lo) && now[60..64] == Store(big, hi);
    LoadStore(big, lo, now, 14);
    LoadStore(big, hi, now, 15);
    assert want[..56] == front && now[..56] == turned[..56];
    forall i | 0 <= i < 14 ensures LoadAt(big, now, i) == LittleAt(want, i) {
      EarlierWords(big, turned, now, 14, i);
      SameWord(want, was, 56, i);
    }
    SameWords(big, now, want);
  }

  lemma SameWords(big: bool, now: seq<byte>, want: seq<byte>)
    requires |now| == |want| == 64
    requires forall i :: 0 <= i < 16 ==> LoadAt(big, now, i) == LittleAt(want, i)
    ensures HostWords(big, now) == Words(want)
  {
    hide LoadAt, Word;
    forall i | 0 <= i < 16 ensures HostWords(big, now)[i] == Words(want)[i] {
      WordsAt(want, i);
    }
  }

  lemma WordsAt(b: seq<byte>, i: nat)
    requires |b| == 64 && i < 16
    ensures Words(b)[i] == LittleAt(b, i)
  {}

  lemma OutputDigest(big: bool, was: seq<byte>, now: seq<byte>, c: Chain)
    requires was == Store(big, c.a) + Store(big, c.b) + Store(big, c.c) + Store(big, c.d)
    requires |now| == 16 && Turned(big, was, now, 4)
    ensures now == Output(c)
  {
    hide Word, WordBytes, LoadAt, Store, LittleAt;
    assert was[0..4] == Store(big, c.a) && was[4..8] == Store(big, c.b);
    assert was[8..12] == Store(big, c.c) && was[12..16] == Store(big, c.d);
    OutputBytes(big, was, now, 0, c.a);
    OutputBytes(big, was, now, 1, c.b);
    OutputBytes(big, was, now, 2, c.c);
    OutputBytes(big, was, now, 3, c.d);
    assert now == now[0..4] + now[4..8] + now[8..12] + now[12..16];
  }

  /** The message that a list of chunks makes up. */
  function Concat(chunks: seq<seq<byte>>): seq<byte> {
    if chunks == [] then [] else chunks[0] + Concat(chunks[1..])
  }

  lemma {:induction false} ConcatSnoc(chunks: seq<seq<byte>>, c: seq<byte>)
    ensures Concat(chunks + [c]) == Concat(chunks) + c
  {
    if chunks == [] {
      assert [c][1..] == [];
    } else {
      assert (chunks + [c])[1..] == chunks[1..] + [c];
      ConcatSnoc(chunks[1..], c);
    }
  }

  class Md5Context {
    const big: bool
    const f: Compress
    const data: array<byte>
    var chain: Chain
    var bits0: u32
    var bits1: u32

    /** The context stands for the message m: whole blocks compressed, the rest waiting, and the 64-bit
        bit count kept in two words. */
    ghost predicate Holds(m: seq<byte>)
      reads this, data
    {
      && data.Length == 64
      && chain == Blocks(f, INIT, m)
      && data[..|m| % 64] == Rest(m)
      && Counted(bits0, bits1, |m|)
    }

    constructor (big: bool, f: Compress)
      ensures data.Length == 64 && fresh(data) && this.f == f
    {
      this.big, this.f := big, f;
      data := new byte[64](_ => 0);
      chain, bits0, bits1 := INIT, 0, 0;
    }

    /** `MD5Init` */
    method Init()
      requires data.Length == 64
      modifies this
      ensures Holds([])
    {
      hide Blocks, Rest, Counted;
      chain := INIT;
      bits0, bits1 := 0, 0;
      Nothing(f);
      CountedNothing();
    }

    /** `ByteReverse` and `MD5Transform` on the full block buffer. */
    method Absorb()
      requires data.Length == 64
      modifies this`chain, data
      ensures chain == f(old(chain), Words(old(data[..])))
    {
      hide Word, WordBytes, LoadAt;
      ghost var was := data[..];
      ByteReverse(big, data, 16);
      var words := HostWords(big, data[..]);
      TurnedWords(big, was, data[..]);
      chain := f(chain, words);
    }

    /** The bit count of MD5Update; answers how many bytes were waiting. */
    method Count(len: nat, ghost total: nat) returns (waiting: nat)
      requires len < 256 && Counted(bits0, bits1, total)
      modifies this`bits0, this`bits1
      ensures Counted(bits0, bits1, total + len)
      ensures waiting == total % 64
    {
      var t: nat := bits0;
      CountBits(total, len, bits0, bits1);
      WaitingBytes(total, bits0, bits1);
      hide Counted;
      bits0 := (t + 8 * len) % 0x1_0000_0000;
      if bits0 < t {
        bits1 := (bits1 + 1) % 0x1_0000_0000;
      }
      assert len / 0x2000_0000 == 0;
      bits1 := (bits1 + len / 0x2000_0000) % 0x1_0000_0000;
      waiting := t / 8 % 64;
    }

    /** Completes the waiting block with b and compresses it. */
    method Complete(at: nat, b: seq<byte>, ghost done: seq<byte>, ghost front: seq<byte>)
      requires data.Length == 64 && at + |b| == 64 && |front| == at && data[..at] == front
      requires |done| % 64 == 0 && chain == Blocks(f, INIT, done)
      modifies this`chain, data
      ensures chain == Blocks(f, INIT, done + (front + b))
    {
      hide Blocks, Words;
      CopyIn(data, at, b);
      assert data[..] == front + b;
      OneMoreBlock(f, INIT, done, front + b);
      Absorb();
    }

    /** `MD5Update`: the context of m becomes the context of m followed by buf, wherever the cut is. */
    method Update(buf: seq<byte>, ghost m: seq<byte>)
      requires Holds(m) && |buf| < 256
      modifies this, data
      ensures Holds(m + buf)
    {
      hide Blocks, Counted;
      var t := Count(|buf|, |m|);
      if t + |buf| < 64 {
        CopyIn(data, t, buf);
        Short(f, m, buf);
        assert data[..t + |buf|] == Rest(m) + buf;
      } else {
        Carry(t, buf, m);
      }
    }

    /** The part of MD5Update that completes the waiting block, if there is one. */
    method Carry(t: nat, buf: seq<byte>, ghost m: seq<byte>)
      requires t == |m| % 64 && t + |buf| >= 64
      requires data.Length == 64 && chain == Blocks(f, INIT, m) && data[..t] == Rest(m)
      modifies this`chain, data
      ensures chain == Blocks(f, INIT, m + buf) && data[..|m + buf| % 64] == Rest(m + buf)
    {
      hide Blocks;
      WholeIsEnough(f, INIT, m);
      ghost var done := Whole(m);
      assert m == done + Rest(m) && |done| % 64 == 0;
      var b := buf;
      if t != 0 {
        var room := 64 - t;
        Complete(t, b[..room], done, Rest(m));
        done := done + (Rest(m) + b[..room]);
        b := b[room..];
      }
      assert m + buf == done + b;
      Remaining(b, done, m + buf);
    }

    /** The loop over whole blocks and the copy of what is left. */
    method Remaining(rest: seq<byte>, ghost start: seq<byte>, ghost all: seq<byte>)
      requires data.Length == 64 && |start| % 64 == 0 && all == start + rest
      requires chain == Blocks(f, INIT, start)
      modifies this`chain, data
      ensures chain == Blocks(f, INIT, all) && data[..|all| % 64] == Rest(all)
    {
      hide Blocks;
      var b := rest;
      ghost var done := start;
      while |b| >= 64
        invariant |done| % 64 == 0 && all == done + b
        invariant chain == Blocks(f, INIT, done)
      {
        Complete(0, b[..64], done, []);
        assert [] + b[..64] == b[..64];
        done := done + b[..64];
        b := b[64..];
      }
      CopyIn(data, 0, b);
      assert Whole(all) == done && Rest(all) == b;
      WholeIsEnough(f, INIT, all);
    }

    /** The last block of MD5Final: 14 words from the buffer and the two words of the bit count. */
    method LastBlock(ghost m: seq<byte>, ghost front: seq<byte>)
      requires data.Length == 64 && |front| == 56 && data[..56] == front
      requires Counted(bits0, bits1, |m|)
      modifies this`chain, data
      ensures chain == f(old(chain), Words(front + LengthBytes(m)))
    {
      hide Word, WordBytes, Blocks;
      ghost var was := data[..];
      ByteReverse(big, data, 14);
      ghost var reversed := data[..];
      CopyIn(data, 56, Store(big, bits0));
      CopyIn(data, 60, Store(big, bits1));
      var words := HostWords(big, data[..]);
      LastWords(big, m, front, was, reversed, data[..], bits0, bits1);
      chain := f(chain, words);
    }

    /** `MD5Final`: the digest of the message the context stands for. */
    method Final(ghost m: seq<byte>) returns (digest: seq<byte>)
      requires Holds(m)
      modifies this, data
      ensures digest == Digest(f, m)
    {
      hide Blocks, Words, WordBytes, Padded;
      WaitingBytes(|m|, bits0, bits1);
      var count := bits0 / 8 % 64;
      CopyIn(data, count, [0x80]);
      var p := count + 1;
      assert data[..p] == Rest(m) + [0x80];
      count := 64 - 1 - count;
      if count < 8 {
        CopyIn(data, p, Zeros(count));
        assert data[..] == Rest(m) + [0x80] + Zeros(63 - |m| % 64);
        Absorb();
        CopyIn(data, 0, Zeros(56));
        PaddedTwoBlocks(f, m);
        LastBlock(m, Zeros(56));
      } else {
        CopyIn(data, p, Zeros(count - 8));
        PaddedOneBlock(f, m);
        LastBlock(m, Rest(m) + [0x80] + Zeros(55 - |m| % 64));
      }
      digest := OutputOf(chain);
      chain, bits0, bits1 := Chain(0, 0, 0, 0), 0, 0;
    }

    /** The digest of a message that comes in chunks, as the callers of the three operations compute it: it
        does not depend on where the message is cut. */
    method DigestOf(chunks: seq<seq<byte>>) returns (digest: seq<byte>)
      requires data.Length == 64
      requires forall i :: 0 <= i < |chunks| ==> |chunks[i]| < 256
      modifies this, data
      ensures digest == Digest(f, Concat(chunks))
    {
      hide Digest, Holds;
      Init();
      var i := 0;
      while i < |chunks|
        invariant 0 <= i <= |chunks|
        invariant Holds(Concat(chunks[..i]))
      {
        ConcatSnoc(chunks[..i], chunks[i]);
        assert chunks[..i] + [chunks[i]] == chunks[..i + 1];
        Update(chunks[i], Concat(chunks[..i]));
        i := i + 1;
      }
      assert chunks[..i] == chunks;
      digest := Final(Concat(chunks));
    }

    /** `ByteReverse` on the chaining words and the copy to the caller. */
    method OutputOf(c: Chain) returns (digest: seq<byte>)
      ensures digest == Output(c)
    {
      hide Word, WordBytes, LoadAt;
      var buf := new byte[16](_ => 0);
      CopyIn(buf, 0, Store(big, c.a) + Store(big, c.b) + Store(big, c.c) + Store(big, c.d));
      ghost var was := buf[..];
      ByteReverse(big, buf, 4);
      digest := buf[..];
      OutputDigest(big, was, digest, c);
    }
  }
}
