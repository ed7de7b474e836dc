/** SHA-1 as the WebSocket handshake computes it, against FIPS 180-1.  */
module Sha1Digest {
  import opened ByteOrder
  import Forests

  type Byte = bv8
  type Word = bv32

  // ---- FIPS 180-1 ----

  /** Addition modulo 2^32. */
  function Plus(x: Word, y: Word): Word {
    x + y
  }

  function Rotl(v: Word, n: nat): Word
    requires 0 < n < 32
  {
    (v << n) | (v >> (32 - n))
  }

  /** Section 5, the logical functions. */
  function F(t: nat, b: Word, c: Word, d: Word): Word {
    if t < 20 then (b & c) | (!b & d)
    else if t < 40 then b ^ c ^ d
    else if t < 60 then (b & c) | (b & d) | (c & d)
    else b ^ c ^ d
  }

  /** Section 6, the constants. */
  function K(t: nat): Word {
    if t < 20 then 0x5A827999 else if t < 40 then 0x6ED9EBA1 else if t < 60 then 0x8F1BBCDC else 0xCA62C1D6
  }

  datatype Chaining = Chaining(a: Word, b: Word, c: Word, d: Word, e: Word)

  const INITIAL := Chaining(0x67452301, 0xEFCDAB89, 0x98BADCFE, 0x10325476, 0xC3D2E1F0)

  /** Four bytes, big end first. */
  function Join(b0: Byte, b1: Byte, b2: Byte, b3: Byte): Word {
    (b0 as Word << 24) | (b1 as Word << 16) | (b2 as Word << 8) | b3 as Word
  }

  /** One step of the message schedule. */
  function Mix(w3: Word, w8: Word, w14: Word, w16: Word): Word {
    Rotl(w3 ^ w8 ^ w14 ^ w16, 1)
  }

  /** Section 7, steps a and b: the message schedule of one block. */
  function W(block: seq<Byte>, t: nat): Word
    requires |block| == 64
  {
    if t < 16 then Join(block[4 * t], block[4 * t + 1], block[4 * t + 2], block[4 * t + 3])
    else Mix(W(block, t - 3), W(block, t - 8), W(block, t - 14), W(block, t - 16))
  }

  /** Section 7, step d, once. */
  function Round(s: Chaining, t: nat, w: Word): Chaining {
    Chaining(Plus(Plus(Plus(Plus(Rotl(s.a, 5), F(t, s.b, s.c, s.d)), s.e), K(t)), w), s.a, Rotl(s.b, 30), s.c, s.d)
  }

  /** The first t rounds of a block. */
  function Rounds(h: Chaining, block: seq<Byte>, t: nat): Chaining
    requires |block| == 64
  {
    if t == 0 then h else Round(Rounds(h, block, t - 1), t - 1, W(block, t - 1))
  }

  function Add(x: Chaining, y: Chaining): Chaining {
    Chaining(Plus(x.a, y.a), Plus(x.b, y.b), Plus(x.c, y.c), Plus(x.d, y.d), Plus(x.e, y.e))
  }

  /** Section 7: 80 rounds, then step e. */
  function Compress(h: Chaining, block: seq<Byte>): Chaining
    requires |block| == 64
  {
    Add(h, Rounds(h, block, 80))
  }

  /** The chaining value after a whole number of blocks. */
  function Absorb(h: Chaining, m: seq<Byte>): Chaining
    requires |m| % 64 == 0
    decreases |m|
  {
    if |m| == 0 then h else Absorb(Compress(h, m[..64]), m[64..])
  }

  /** The 64-bit length field. */
  function LengthField(bits: nat): (r: seq<Byte>)
    ensures |r| == 8
  {
    var l := BigEndian(bits, 8);
    seq(8, i requires 0 <= i < 8 => l[i] as Byte)
  }

  function Zeros(n: nat): (z: seq<Byte>)
    ensures |z| == n
  {
    seq(n, _ => 0)
  }

  /** Number of zero bytes of padding: the least that leaves room for exactly the length. */
  function PadZeros(length: nat): (z: nat)
    ensures z < 64 && (length + 1 + z) % 64 == 56
  {
    (119 - length % 64) % 64
  }

  const LENGTH_MODULUS: nat := 0x1_0000_0000_0000_0000

  /** What follows a message of the given length: a one bit, zeros, and the length in bits. */
  function Padding(length: nat): (p: seq<Byte>)
    ensures |p| == 9 + PadZeros(length)
  {
    [0x80] + Zeros(PadZeros(length)) + LengthField(8 * length % LENGTH_MODULUS)
  }

  lemma WholeBlocks(n: nat)
    requires n % 64 == 56
    ensures (n + 8) % 64 == 0
  {
  }

  /** Section 4. The standard defines messages shorter than 2^64 bits; beyond that the length
      field wraps. */
  function Padded(m: seq<Byte>): (p: seq<Byte>)
    ensures |p| == |m| + 9 + PadZeros(|m|) && |p| % 64 == 0
  {
    WholeBlocks(|m| + 1 + PadZeros(|m|));
    m + Padding(|m|)
  }

  function WordBytes(w: Word): seq<Byte> {
    [((w >> 24) & 0xFF) as Byte, ((w >> 16) & 0xFF) as Byte, ((w >> 8) & 0xFF) as Byte, (w & 0xFF) as Byte]
  }

  function DigestBytes(h: Chaining): seq<Byte> {
    WordBytes(h.a) + WordBytes(h.b) + WordBytes(h.c) + WordBytes(h.d) + WordBytes(h.e)
  }

  /** The message digest. */
  function Digest(m: seq<Byte>): seq<Byte> {
    DigestBytes(Absorb(INITIAL, Padded(m)))
  }

  // ---- Block-wise absorption ----

  lemma {:induction false} AbsorbMore(h: Chaining, a: seq<Byte>, b: seq<Byte>)
    requires |a| % 64 == 0 && |b| % 64 == 0
    ensures Absorb(h, a + b) == Absorb(Absorb(h, a), b)
    decreases |a|
  {
    if |a| == 0 {
      assert a + b == b;
    } else {
      assert (a + b)[..64] == a[..64] && (a + b)[64..] == a[64..] + b;
      AbsorbMore(Compress(h, a[..64]), a[64..], b);
    }
  }

  lemma AbsorbBlock(h: Chaining, a: seq<Byte>, b: seq<Byte>)
    requires |a| % 64 == 0 && |b| == 64
    ensures Absorb(h, a + b) == Compress(Absorb(h, a), b)
  {
    AbsorbMore(h, a, b);
    assert b[..64] == b && b[64..] == [];
  }

  // ---- The implementation ----

  /** State after feeding m: whole blocks absorbed, the rest in the buffer. */
  ghost predicate Holds(m: seq<Byte>, h: Chaining, buf: seq<Byte>, len: nat) {
    && |buf| == 64 && len < 64 && len <= |m| && (|m| - len) % 64 == 0
    && h == Absorb(INITIAL, m[..|m| - len])
    && buf[..len] == m[|m| - len..]
  }

  /** Buffering a chunk that does not fill the block. */
  lemma HoldsBuffered(m: seq<Byte>, h: Chaining, buf: seq<Byte>, len: nat, chunk: seq<Byte>, buf': seq<Byte>)
    requires Holds(m, h, buf, len) && len + |chunk| < 64 && |buf'| == 64
    requires buf'[..len + |chunk|] == buf[..len] + chunk
    ensures Holds(m + chunk, h, buf', len + |chunk|)
  {
    var k := |m| - len;
    assert (m + chunk)[..k] == m[..k];
    assert (m + chunk)[k..] == m[k..] + chunk;
  }

  /** Buffering a chunk that fills the block, and compressing it. */
  lemma HoldsCompressed(m: seq<Byte>, h: Chaining, buf: seq<Byte>, len: nat, chunk: seq<Byte>, buf': seq<Byte>)
    requires Holds(m, h, buf, len) && len + |chunk| == 64 && |buf'| == 64
    requires buf' == buf[..len] + chunk
    ensures Holds(m + chunk, Compress(h, buf'), buf', 0)
  {
    var k := |m| - len;
    assert m + chunk == m[..k] + buf';
    AbsorbBlock(INITIAL, m[..k], buf');
    assert (m + chunk)[..|m + chunk|] == m + chunk;
  }

  class Sha1 {
    var h: Chaining
    var bits: nat
    const buf: array<Byte>
    var len: nat
    /** Everything fed so far. */
    ghost var fed: seq<Byte>

    ghost predicate Valid()
      reads this, buf
    {
      && buf.Length == 64 && Holds(fed, h, buf[..], len)
      && bits == 8 * |fed| % LENGTH_MODULUS
    }

    constructor ()
      ensures Valid() && fed == [] && fresh(buf)
    {
      h, bits, len, fed := INITIAL, 0, 0, [];
      buf := new Byte[64](_ => 0);
    }

    /** The 80-word schedule of the buffered block. */
    method Schedule() returns (w: array<Word>)
      requires buf.Length == 64
      ensures fresh(w) && w.Length == 80 && forall t :: 0 <= t < 80 ==> w[t] == W(buf[..], t)
    {
      hide Join, Mix;
      ghost var block := buf[..];
      w := new Word[80](_ => 0);
      for i := 0 to 16
        invariant buf[..] == block
        invariant forall t :: 0 <= t < i ==> w[t] == W(block, t)
      {
        w[i] := Join(buf[i * 4], buf[i * 4 + 1], buf[i * 4 + 2], buf[i * 4 + 3]);
      }
      for i := 16 to 80
        invariant buf[..] == block
        invariant forall t :: 0 <= t < i ==> w[t] == W(block, t)
      {
        w[i] := Mix(w[i - 3], w[i - 8], w[i - 14], w[i - 16]);
        assert W(block, i) == Mix(W(block, i - 3), W(block, i - 8), W(block, i - 14), W(block, i - 16));
      }
    }

    /** Fold the buffered block into the chaining value: the 80-round step. */
    method CompressBuf()
      requires buf.Length == 64
      modifies this`h
      ensures h == Compress(old(h), buf[..])
    {
      hide Plus, Rotl, W, F, K;
      var w := Schedule();
      var a, b, c, d, e := h.a, h.b, h.c, h.d, h.e;
      for i := 0 to 80
        invariant Chaining(a, b, c, d, e) == Rounds(old(h), buf[..], i)
        invariant h == old(h) && forall t :: 0 <= t < 80 ==> w[t] == W(buf[..], t)
      {
        var f, k := F(i, b, c, d), K(i);
        var t := Plus(Plus(Plus(Plus(Rotl(a, 5), f), e), k), w[i]);
        e := d; d := c; c := Rotl(b, 30); b := a; a := t;
      }
      h := Chaining(Plus(h.a, a), Plus(h.b, b), Plus(h.c, c), Plus(h.d, d), Plus(h.e, e));
    }

    /** Feed more of the message, however it is cut. */
    method Update(data: seq<Byte>)
      requires Valid()
      modifies this, buf
      ensures Valid() && fed == old(fed) + data
    {
      hide Holds;
      bits := (bits + |data| * 8) % LENGTH_MODULUS;
      BitsAdded(|fed|, |data|);
      var p := 0;
      assert data[..0] == [] && fed + [] == fed;
      HoldsBound(fed, h, buf[..], len);
      while p < |data|
        invariant 0 <= p <= |data| && buf.Length == 64 && len < 64
        invariant Holds(fed, h, buf[..], len) && fed == old(fed) + data[..p]
        invariant bits == 8 * (|old(fed)| + |data|) % LENGTH_MODULUS
      {
        var n := |data| - p;
        var room := 64 - len;
        var take := if n < room then n else room;
        assert data[..p + take] == data[..p] + data[p..p + take];
        Forests.Assoc(old(fed), data[..p], data[p..p + take]);
        Take(data[p..p + take]);
        p := p + take;
      }
      assert data[..|data|] == data;
    }

    /** Buffer one chunk that fits, and compress when it fills the block. */
    method Take(chunk: seq<Byte>)
      requires buf.Length == 64 && Holds(fed, h, buf[..], len) && len + |chunk| <= 64
      modifies this`h, this`len, this`fed, buf
      ensures Holds(fed, h, buf[..], len) && fed == old(fed) + chunk && len < 64
    {
      hide Absorb, Compress;
      ghost var before := buf[..];
      Store(chunk);
      if len + |chunk| == 64 {
        HoldsCompressed(fed, h, before, len, chunk, buf[..]);
        CompressBuf();
        len := 0;
      } else {
        HoldsBuffered(fed, h, before, len, chunk, buf[..]);
        len := len + |chunk|;
      }
      fed := fed + chunk;
    }

    /** Pad, append the length, compress, and read the digest out of the chaining value. */
    method Finish() returns (digest: seq<Byte>)
      requires Valid()
      modifies this, buf
      ensures digest == Digest(old(fed))
    {
      hide Absorb, Compress, LengthField, Zeros, Padded, WordBytes;
      ghost var m, r := fed, len;
      ghost var tail := m[|m| - r..];
      Store([0x80]);
      len := len + 1;
      if len > 56 {
        FillZeros(64);
        assert buf[..] == buf[..64] == tail + [0x80] + Zeros(63 - r);
        CompressBuf();
        len := 0;
        TwoBlocksLeft(m, r);
        assert buf[..len] == [];
        CloseBlock();
        Nothing(Zeros(56));
      } else {
        OneBlockLeft(m, r);
        CloseBlock();
      }
      digest := WordBytes(h.a) + WordBytes(h.b) + WordBytes(h.c) + WordBytes(h.d) + WordBytes(h.e);
    }

    /** Zeros up to byte 56, the bit count behind them, and the final compression. */
    method CloseBlock()
      requires buf.Length == 64 && len <= 56
      modifies this`len, this`h, buf
      ensures var block := old(buf[..len]) + Zeros(56 - old(len)) + LengthField(bits);
              |block| == 64 && h == Compress(old(h), block)
    {
      hide Compress, LengthField, Zeros;
      FillZeros(56);
      StoreLength();
      assert buf[..] == buf[..56] + buf[56..];
      CompressBuf();
    }

    method FillZeros(to: nat)
      requires buf.Length == 64 && len <= to <= 64
      modifies this`len, buf
      ensures len == to && buf[..to] == old(buf[..len]) + Zeros(to - old(len))
    {
      ghost var from := len;
      while len < to
        invariant from <= len <= to && buf[..len] == old(buf[..len]) + Zeros(len - from)
      {
        buf[len] := 0;
        len := len + 1;
      }
    }

    /** The bit count into the last eight bytes, big end first. */
    method StoreLength()
      requires buf.Length == 64
      modifies buf
      ensures buf[..56] == old(buf[..56]) && buf[56..] == LengthField(bits)
    {
      hide Pow256, BigEndian;
      for i := 0 to 8
        invariant buf[..56] == old(buf[..56])
        invariant forall j :: 0 <= j < i ==> buf[56 + j] == LengthField(bits)[j]
      {
        BigEndianAt(bits, 8, i);
        buf[56 + i] := ((bits / Pow256(7 - i)) % 256) as Byte;
      }
    }

    /** Copy a chunk into the buffer behind the bytes already there. */
    method Store(chunk: seq<Byte>)
      requires buf.Length == 64 && len + |chunk| <= 64
      modifies buf
      ensures buf[..len] == old(buf[..len]) && buf[..len + |chunk|] == old(buf[..len]) + chunk
    {
      for i := 0 to |chunk|
        invariant buf[..len] == old(buf[..len])
        invariant buf[len..len + i] == chunk[..i]
      {
        buf[len + i] := chunk[i];
      }
      assert buf[..len + |chunk|] == buf[..len] + buf[len..len + |chunk|];
    }
  }

  lemma HoldsBound(m: seq<Byte>, h: Chaining, buf: seq<Byte>, len: nat)
    requires Holds(m, h, buf, len)
    ensures len < 64
  {
  }

  lemma BitsAdded(fed: nat, more: nat)
    ensures (8 * fed % LENGTH_MODULUS + more * 8) % LENGTH_MODULUS == 8 * (fed + more) % LENGTH_MODULUS
  {
    var q := 8 * fed / LENGTH_MODULUS;
    assert 8 * (fed + more) == 8 * fed % LENGTH_MODULUS + more * 8 + LENGTH_MODULUS * q;
  }

  lemma Nothing(s: seq<Byte>)
    ensures [] + s == s
  {
  }

  /** The last block when r <= 55 bytes are left over: marker, zeros and length fit behind them. */
  lemma OneBlockLeft(m: seq<Byte>, r: nat)
    requires r <= 55 && r <= |m| && (|m| - r) % 64 == 0
    ensures var block := m[|m| - r..] + [0x80] + Zeros(55 - r) + LengthField(8 * |m| % LENGTH_MODULUS);
            |block| == 64 && Absorb(INITIAL, Padded(m)) == Compress(Absorb(INITIAL, m[..|m| - r]), block)
  {
    hide Absorb, Compress, LengthField;
    LeftOver(|m|, r);
    var p, tail, z, l := m[..|m| - r], m[|m| - r..], Zeros(55 - r), LengthField(8 * |m| % LENGTH_MODULUS);
    assert Padded(m) == p + (tail + [0x80] + z + l);
    AbsorbBlock(INITIAL, p, tail + [0x80] + z + l);
  }

  /** Otherwise the marker closes one block and a block of zeros and length follows. */
  lemma TwoBlocksLeft(m: seq<Byte>, r: nat)
    requires 56 <= r < 64 && r <= |m| && (|m| - r) % 64 == 0
    ensures var one := m[|m| - r..] + [0x80] + Zeros(63 - r);
            var two := Zeros(56) + LengthField(8 * |m| % LENGTH_MODULUS);
            |one| == |two| == 64 &&
            Absorb(INITIAL, Padded(m)) == Compress(Compress(Absorb(INITIAL, m[..|m| - r]), one), two)
  {
    hide Absorb, Compress, LengthField;
    LeftOver(|m|, r);
    var p, tail, l := m[..|m| - r], m[|m| - r..], LengthField(8 * |m| % LENGTH_MODULUS);
    var one, two := tail + [0x80] + Zeros(63 - r), Zeros(56) + l;
    assert Zeros(119 - r) == Zeros(63 - r) + Zeros(56);
    assert Padded(m) == p + one + two;
    AbsorbBlock(INITIAL, p, one);
    AbsorbBlock(INITIAL, p + one, two);
  }

  lemma LeftOver(length: nat, r: nat)
    requires r < 64 && r <= length && (length - r) % 64 == 0
    ensures length % 64 == r && PadZeros(length) == if r <= 55 then 55 - r else 119 - r
  {
  }
}
