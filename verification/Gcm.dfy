/** The GCM mode around an arbitrary block cipher: counter sequences, GHASH over
    bytes, and sealing. */
module Gcm {
  import opened Wrappers
  import opened Limbs
  import opened Gf128

  // ---- Bytes and bits ------------------------------------------------------

  /** The low n bits of a natural, most significant first. */
  function NatBits(x: nat, n: nat): (b: Bits)
    ensures |b| == n
  {
    if n == 0 then [] else NatBits(x / 2, n - 1) + [x % 2 == 1]
  }

  function BitsNat(b: Bits): nat
  {
    if b == [] then 0
    else 2 * BitsNat(b[..|b| - 1]) + (if b[|b| - 1] then 1 else 0)
  }

  lemma {:induction false} BitsNatBound(b: Bits)
    ensures BitsNat(b) < Pow(2, |b|)
  {
    if b != [] {
      BitsNatBound(b[..|b| - 1]);
    }
  }

  lemma {:induction false} BitsRoundTrip(b: Bits)
    ensures NatBits(BitsNat(b), |b|) == b
  {
    if b != [] {
      BitsRoundTrip(b[..|b| - 1]);
      assert b == b[..|b| - 1] + [b[|b| - 1]];
    }
  }

  lemma {:induction false} NatRoundTrip(x: nat, n: nat)
    requires x < Pow(2, n)
    ensures BitsNat(NatBits(x, n)) == x
  {
    if n > 0 {
      NatRoundTrip(x / 2, n - 1);
      assert NatBits(x, n)[..n - 1] == NatBits(x / 2, n - 1);
    }
  }

  /** Halving d times by k is dividing by k * d at once. */
  lemma DivStep(x: nat, k: nat, d: nat)
    requires 0 < k && 0 < d
    ensures 0 < k * d && x / k / d == x / (k * d)
  {
    MulPositive(k, d);
    var q, r := x / (k * d), x % (k * d);
    assert x == (k * d) * q + r;
    assert (k * d) * q == k * (d * q);
    assert x / k == d * q + r / k by {
      RemainderUnique(x, k, d * q + r / k, r % k);
    }
    assert r / k < d by {
      if d <= r / k {
        MulMonotone(d, r / k, k);
      }
    }
    RemainderUnique(x / k, d, q, r / k);
  }

  /** Bit k of the string has weight 2^(n - 1 - k). */
  lemma {:induction false} NatBit(x: nat, n: nat, k: nat)
    requires k < n
    ensures 0 < Pow(2, n - 1 - k) && (NatBits(x, n)[k] <==> x / Pow(2, n - 1 - k) % 2 == 1)
  {
    PowPositive(2, n - 1 - k);
    if k < n - 1 {
      NatBit(x / 2, n - 1, k);
      DivStep(x, 2, Pow(2, n - 2 - k));
    }
  }

  function ByteBits(x: Byte): (b: Bits)
    ensures |b| == 8
  {
    NatBits(x, 8)
  }

  function ToByte(b: Bits): (x: Byte)
    requires |b| == 8
    ensures ByteBits(x) == b
  {
    BitsNatBound(b);
    BitsRoundTrip(b);
    assert Pow(2, 8) == 256;
    BitsNat(b)
  }

  /** a ^ b on bytes */
  function XorByte(a: Byte, b: Byte): (c: Byte)
    ensures ByteBits(c) == Xor(ByteBits(a), ByteBits(b))
  {
    ToByte(Xor(ByteBits(a), ByteBits(b)))
  }

  lemma ByteEqual(a: Byte, b: Byte)
    requires ByteBits(a) == ByteBits(b)
    ensures a == b
  {
    assert Pow(2, 8) == 256;
    NatRoundTrip(a, 8);
    NatRoundTrip(b, 8);
  }

  lemma XorByteTwice(a: Byte, k: Byte)
    ensures XorByte(XorByte(a, k), k) == a
  {
    XorAssoc(ByteBits(a), ByteBits(k), ByteBits(k));
    XorZero(ByteBits(k));
    XorZero(ByteBits(a));
    ByteEqual(XorByte(XorByte(a, k), k), a);
  }

  /** bytes(a ^ b for a, b in zip(...)) */
  function XorBytes(a: seq<Byte>, b: seq<Byte>): (c: seq<Byte>)
    requires |a| <= |b|
    ensures |c| == |a|
  {
    seq(|a|, i requires 0 <= i < |a| => XorByte(a[i], b[i]))
  }

  // ---- GHASH ---------------------------------------------------------------

  function BytesBits(s: seq<Byte>): (b: Bits)
    ensures |b| == 8 * |s|
  {
    if s == [] then [] else ByteBits(s[0]) + BytesBits(s[1..])
  }

  /** The bits of a byte string: byte by byte, high bit first. */
  lemma {:induction false} BytesBit(s: seq<Byte>, i: nat)
    requires i < 8 * |s|
    ensures 0 < Pow(2, 7 - i % 8) && (BytesBits(s)[i] <==> s[i / 8] / Pow(2, 7 - i % 8) % 2 == 1)
  {
    if i < 8 {
      NatBit(s[0], 8, i);
    } else {
      BytesBit(s[1..], i - 8);
      assert i / 8 == 1 + (i - 8) / 8 && i % 8 == (i - 8) % 8;
    }
  }

  function ToBytes(b: Bits): (s: seq<Byte>)
    requires |b| % 8 == 0
    ensures 8 * |s| == |b| && BytesBits(s) == b
  {
    if b == [] then [] else
      var s := [ToByte(b[..8])] + ToBytes(b[8..]);
      assert BytesBits(s) == b[..8] + b[8..] == b;
      s
  }

  function ZeroBytes(n: nat): (z: seq<Byte>)
    ensures |z| == n
  {
    seq(n, _ => 0)
  }

  /** b.ljust(16, zero) */
  function Pad16(b: seq<Byte>): (p: seq<Byte>)
    requires |b| <= 16
    ensures |p| == 16 && forall k | 0 <= k < 16 :: p[k] == if k < |b| then b[k] else 0
  {
    b + ZeroBytes(16 - |b|)
  }

  /** The 128-bit blocks of the data, the last one padded with zeros. */
  function BlocksOf(data: seq<Byte>): (bs: seq<Bits>)
    ensures forall i | 0 <= i < |bs| :: |bs[i]| == WIDTH
    ensures |bs| == (|data| + 15) / 16
  {
    if data == [] then []
    else if |data| <= 16 then [BytesBits(Pad16(data))]
    else [BytesBits(data[..16])] + BlocksOf(data[16..])
  }

  /** Byte k of the data, and 0 beyond its end. */
  function ByteAt(data: seq<Byte>, k: nat): Byte {
    if k < |data| then data[k] else 0
  }

  /** Block i holds bytes 16 i to 16 i + 15 of the data, high bits first, and
      zeros beyond its end. */
  lemma {:induction false} BlockBit(data: seq<Byte>, i: nat, j: nat)
    requires i < |BlocksOf(data)| && j < WIDTH
    ensures 0 < Pow(2, 7 - j % 8)
    ensures BlocksOf(data)[i][j] <==> ByteAt(data, 16 * i + j / 8) / Pow(2, 7 - j % 8) % 2 == 1
    decreases |data|
  {
    if i > 0 {
      BlockBit(data[16..], i - 1, j);
    } else if |data| <= 16 {
      BytesBit(Pad16(data), j);
    } else {
      BytesBit(data[..16], j);
    }
  }

  /** The chained hash, from any starting value. */
  function Chain(y: Bits, h: Bits, bs: seq<Bits>): (z: Bits)
    requires |y| == |h| == WIDTH && forall i | 0 <= i < |bs| :: |bs[i]| == WIDTH
    ensures |z| == WIDTH
    decreases |bs|
  {
    if bs == [] then y else Chain(Dot(Xor(y, bs[0]), h), h, bs[1..])
  }

  /** The slice taken at i is the first block of what is left. */
  lemma FirstBlock(data: seq<Byte>, i: nat)
    requires i < |data|
    ensures var chunk := if i + 16 <= |data| then data[i..i + 16] else data[i..];
      var rest := if i + 16 <= |data| then data[i + 16..] else [];
      BlocksOf(data[i..]) == [BytesBits(Pad16(chunk))] + BlocksOf(rest)
  {
    var left := data[i..];
    if |left| > 16 {
      assert left[..16] == Pad16(left[..16]) == Pad16(data[i..i + 16]);
      assert left[16..] == data[i + 16..];
    } else if |left| == 16 {
      assert left == data[i..i + 16];
    }
  }

  /** ghash */
  method Ghash(h: seq<Byte>, data: seq<Byte>) returns (tag: seq<Byte>)
    requires |h| == 16
    ensures |tag| == 16
    ensures BytesBits(tag) == Chain(Zero(WIDTH), BytesBits(h), BlocksOf(data))
  {
    var y, hi := Zero(WIDTH), BytesBits(h);
    var i := 0;
    assert data[0..] == data;
    while i < |data|
      invariant 0 <= i && |y| == WIDTH
      invariant var rest := if i <= |data| then data[i..] else [];
        Chain(Zero(WIDTH), hi, BlocksOf(data)) == Chain(y, hi, BlocksOf(rest))
    {
      var chunk := if i + 16 <= |data| then data[i..i + 16] else data[i..];
      FirstBlock(data, i);
      y := Xor(y, BytesBits(Pad16(chunk)));
      y := MulShift(y, hi);
      i := i + 16;
    }
    tag := ToBytes(y);
  }

  /** h multiplied by itself k times. */
  function HPow(h: Bits, k: nat): (p: Bits)
    requires |h| == WIDTH && 1 <= k
    ensures |p| == WIDTH
  {
    if k == 1 then h else Dot(HPow(h, k - 1), h)
  }

  /** The sum of block i times h^(m - i), for i from 0 to m - 1. */
  function Horner(h: Bits, bs: seq<Bits>): (z: Bits)
    requires |h| == WIDTH && forall i | 0 <= i < |bs| :: |bs[i]| == WIDTH
    ensures |z| == WIDTH
  {
    if bs == [] then Zero(WIDTH) else Xor(Dot(bs[0], HPow(h, |bs|)), Horner(h, bs[1..]))
  }

  lemma {:induction false} HPowLeft(h: Bits, k: nat)
    requires |h| == WIDTH && 1 <= k
    ensures Dot(h, HPow(h, k)) == HPow(h, k + 1)
  {
    if k > 1 {
      HPowLeft(h, k - 1);
      DotAssoc(h, HPow(h, k - 1), h);
    }
  }

  lemma {:induction false} ChainIsHornerFrom(y: Bits, h: Bits, bs: seq<Bits>)
    requires |y| == |h| == WIDTH && forall i | 0 <= i < |bs| :: |bs[i]| == WIDTH
    ensures Chain(y, h, bs) == if bs == [] then y else Xor(Dot(y, HPow(h, |bs|)), Horner(h, bs))
    decreases |bs|
  {
    if bs != [] {
      var m := |bs|;
      var s := Xor(y, bs[0]);
      ChainIsHornerFrom(Dot(s, h), h, bs[1..]);
      DotLinearLeft(y, bs[0], HPow(h, m), WIDTH);
      if m > 1 {
        DotAssoc(s, h, HPow(h, m - 1));
        HPowLeft(h, m - 1);
      } else {
        XorZero(Dot(bs[0], h));
      }
      XorAssoc(Dot(y, HPow(h, m)), Dot(bs[0], HPow(h, m)), Horner(h, bs[1..]));
      XorZero(Xor(Dot(y, HPow(h, m)), Dot(bs[0], HPow(h, m))));
    }
  }

  /** GHASH is the polynomial in h with the blocks as coefficients. */
  lemma ChainIsHorner(h: Bits, bs: seq<Bits>)
    requires |h| == WIDTH && forall i | 0 <= i < |bs| :: |bs[i]| == WIDTH
    ensures Chain(Zero(WIDTH), h, bs) == Horner(h, bs)
  {
    ChainIsHornerFrom(Zero(WIDTH), h, bs);
    if bs != [] {
      DotZeroLeft(HPow(h, |bs|), WIDTH);
      XorZero(Horner(h, bs));
    }
  }

  function XorBlocks(a: seq<Bits>, b: seq<Bits>): (c: seq<Bits>)
    requires |a| == |b|
    requires forall i | 0 <= i < |a| :: |a[i]| == |b[i]| == WIDTH
    ensures |c| == |a| && forall i | 0 <= i < |c| :: |c[i]| == WIDTH
  {
    seq(|a|, i requires 0 <= i < |a| => Xor(a[i], b[i]))
  }

  lemma {:induction false} HornerLinear(h: Bits, a: seq<Bits>, b: seq<Bits>)
    requires |h| == WIDTH && |a| == |b|
    requires forall i | 0 <= i < |a| :: |a[i]| == |b[i]| == WIDTH
    ensures Horner(h, XorBlocks(a, b)) == Xor(Horner(h, a), Horner(h, b))
  {
    if a == [] {
      XorZero(Zero(WIDTH));
    } else {
      HornerLinear(h, a[1..], b[1..]);
      assert XorBlocks(a, b)[1..] == XorBlocks(a[1..], b[1..]);
      var p := HPow(h, |a|);
      DotLinearLeft(a[0], b[0], p, WIDTH);
      XorSwap(Dot(a[0], p), Dot(b[0], p), Horner(h, a[1..]), Horner(h, b[1..]));
    }
  }

  lemma {:induction false} BytesBitsXor(a: seq<Byte>, b: seq<Byte>)
    requires |a| == |b|
    ensures BytesBits(XorBytes(a, b)) == Xor(BytesBits(a), BytesBits(b))
  {
    if a != [] {
      BytesBitsXor(a[1..], b[1..]);
      assert XorBytes(a, b)[1..] == XorBytes(a[1..], b[1..]);
    }
  }

  lemma XorZeroBytes(a: seq<Byte>, b: seq<Byte>)
    requires |a| == |b| <= 16
    ensures XorBytes(Pad16(a), Pad16(b)) == Pad16(XorBytes(a, b))
  {
    assert XorByte(0, 0) == 0 by {
      XorZero(ByteBits(0));
      assert ByteBits(0) == Zero(8);
      ByteEqual(XorByte(0, 0), 0);
    }
  }

  lemma LastBlockXor(a: seq<Byte>, b: seq<Byte>)
    requires 0 < |a| == |b| <= 16
    ensures BlocksOf(XorBytes(a, b)) == XorBlocks(BlocksOf(a), BlocksOf(b))
  {
    XorZeroBytes(a, b);
    BytesBitsXor(Pad16(a), Pad16(b));
    assert BlocksOf(XorBytes(a, b)) == [BytesBits(Pad16(XorBytes(a, b)))];
  }

  lemma {:induction false} BlocksXor(a: seq<Byte>, b: seq<Byte>)
    requires |a| == |b|
    ensures BlocksOf(XorBytes(a, b)) == XorBlocks(BlocksOf(a), BlocksOf(b))
    decreases |a|
  {
    if a == [] {
    } else if |a| <= 16 {
      LastBlockXor(a, b);
    } else {
      var c := XorBytes(a, b);
      assert c[..16] == XorBytes(a[..16], b[..16]) && c[16..] == XorBytes(a[16..], b[16..]);
      BytesBitsXor(a[..16], b[..16]);
      BlocksXor(a[16..], b[16..]);
      assert BlocksOf(c) == [BytesBits(c[..16])] + BlocksOf(c[16..]);
    }
  }

  /** GHASH as a function of the data. */
  function GhashBits(h: Bits, data: seq<Byte>): (z: Bits)
    requires |h| == WIDTH
    ensures |z| == WIDTH
  {
    Chain(Zero(WIDTH), h, BlocksOf(data))
  }

  /** GHASH is XOR-linear in data of equal length. */
  lemma GhashLinear(h: Bits, a: seq<Byte>, b: seq<Byte>)
    requires |h| == WIDTH && |a| == |b|
    ensures GhashBits(h, XorBytes(a, b)) == Xor(GhashBits(h, a), GhashBits(h, b))
  {
    BlocksXor(a, b);
    ChainIsHorner(h, BlocksOf(XorBytes(a, b)));
    ChainIsHorner(h, BlocksOf(a));
    ChainIsHorner(h, BlocksOf(b));
    HornerLinear(h, BlocksOf(a), BlocksOf(b));
  }

  // ---- Counter blocks ------------------------------------------------------

  /** c.to_bytes(n, "big") */
  function BigEndian(c: nat, n: nat): (s: seq<Byte>)
    ensures |s| == n
  {
    if n == 0 then [] else BigEndian(c / 256, n - 1) + [c % 256]
  }

  /** int.from_bytes(s, "big") */
  function FromBigEndian(s: seq<Byte>): nat
  {
    if s == [] then 0 else 256 * FromBigEndian(s[..|s| - 1]) + s[|s| - 1]
  }

  lemma {:induction false} BigEndianRoundTrip(c: nat, n: nat)
    requires c < Pow(256, n)
    ensures FromBigEndian(BigEndian(c, n)) == c
  {
    if n > 0 {
      BigEndianRoundTrip(c / 256, n - 1);
      assert BigEndian(c, n)[..n - 1] == BigEndian(c / 256, n - 1);
    }
  }

  /** Byte k has weight 256^(n - 1 - k). */
  lemma {:induction false} BigEndianByte(c: nat, n: nat, k: nat)
    requires k < n
    ensures 0 < Pow(256, n - 1 - k) && BigEndian(c, n)[k] == c / Pow(256, n - 1 - k) % 256
  {
    PowPositive(256, n - 1 - k);
    if k < n - 1 {
      BigEndianByte(c / 256, n - 1, k);
      DivStep(c, 256, Pow(256, n - 2 - k));
    }
  }

  /** The IV followed by a 32-bit counter. */
  function CounterBlock(iv: seq<Byte>, c: nat): (b: seq<Byte>)
    requires |iv| == 12
    ensures |b| == 16
  {
    iv + BigEndian(c % B32, 4)
  }

  /** Cutting a number down to 32 bits keeps its low four bytes. */
  lemma LowByte(c: nat, w: nat, k: nat)
    requires 0 < w && w * (256 * k) == B32
    ensures c % B32 / w % 256 == c / w % 256
  {
    var q, r := c / B32, c % B32;
    assert B32 * q == w * ((256 * k) * q) by {
      MulAssoc(w, 256 * k, q);
    }
    RemainderUnique(c, w, (256 * k) * q + r / w, r % w);
    assert (256 * k) * q == 256 * (k * q);
    RemainderUnique(256 * (k * q) + r / w, 256, k * q + r / w / 256, r / w % 256);
  }

  lemma FourBytes(b: nat)
    ensures BigEndian(b, 4) == [b / 0x100_0000 % 256, b / 0x1_0000 % 256, b / 0x100 % 256, b % 256]
  {
    assert b / 256 / 256 == b / 0x1_0000 && b / 256 / 256 / 256 == b / 0x100_0000;
    assert BigEndian(b, 4) == BigEndian(b / 256 / 256, 2) + [b / 256 % 256] + [b % 256];
  }

  /** The counter is in the last four bytes, high byte first. */
  lemma CounterBytes(iv: seq<Byte>, c: nat)
    requires |iv| == 12
    ensures CounterBlock(iv, c)
         == iv + [c / 0x100_0000 % 256, c / 0x1_0000 % 256, c / 0x100 % 256, c % 256]
  {
    LowByte(c, 0x100_0000, 1);
    LowByte(c, 0x1_0000, 0x100);
    LowByte(c, 0x100, 0x1_0000);
    LowByte(c, 1, 0x100_0000);
    FourBytes(c % B32);
  }

  lemma CounterValue(iv: seq<Byte>, c: nat)
    requires |iv| == 12
    ensures FromBigEndian(CounterBlock(iv, c)[12..16]) == c % B32
  {
    assert CounterBlock(iv, c)[12..16] == BigEndian(c % B32, 4);
    assert Pow(256, 4) == B32;
    BigEndianRoundTrip(c % B32, 4);
  }

  /** Two counters give the same block exactly when they agree mod 2^32. */
  lemma CounterInjective(iv: seq<Byte>, c: nat, d: nat)
    requires |iv| == 12
    ensures CounterBlock(iv, c) == CounterBlock(iv, d) <==> c % B32 == d % B32
  {
    CounterValue(iv, c);
    CounterValue(iv, d);
  }

  /** n consecutive counter blocks. */
  function CounterBlocks(iv: seq<Byte>, c: nat, n: nat): (bs: seq<seq<Byte>>)
    requires |iv| == 12
    ensures |bs| == n
  {
    seq(n, i requires 0 <= i < n => CounterBlock(iv, c + i))
  }

  /** inc32: increment the last four bytes of the buffer in place. */
  method Inc32(buf: array<Byte>)
    requires buf.Length == 16
    modifies buf
    ensures buf[..12] == old(buf[..12])
    ensures buf[12..16] == BigEndian((FromBigEndian(old(buf[12..16])) + 1) % B32, 4)
  {
    var c := (FromBigEndian(buf[12..16]) + 1) % B32;
    var bytes := BigEndian(c, 4);
    for i := 0 to 4
      invariant buf[..12] == old(buf[..12])
      invariant forall k | 0 <= k < i :: buf[12 + k] == bytes[k]
    {
      buf[12 + i] := bytes[i];
    }
    assert buf[12..16] == bytes;
  }

  lemma WrapAdd(c: nat, k: nat)
    ensures (c % B32 + k) % B32 == (c + k) % B32
  {
  }

  /** Inc32 takes a counter block to the next one. */
  method Advance(buf: array<Byte>, ghost iv: seq<Byte>, ghost c: nat)
    requires buf.Length == 16 && |iv| == 12 && buf[..] == CounterBlock(iv, c)
    modifies buf
    ensures buf[..] == CounterBlock(iv, c + 1)
  {
    assert buf[..12] == buf[..][..12] && buf[12..16] == buf[..][12..16];
    CounterValue(iv, c);
    WrapAdd(c, 1);
    Inc32(buf);
    assert buf[..] == buf[..12] + buf[12..16];
  }

  /** current_seq: the byte-buffer sequence. */
  method CurrentSeq(iv: seq<Byte>, n: nat, start: nat)
    returns (j0: seq<Byte>, blocks: seq<seq<Byte>>, tail: seq<Byte>)
    requires |iv| == 12 && start < B32
    ensures j0 == CounterBlock(iv, start)
    ensures blocks == CounterBlocks(iv, start + 1, n)
    ensures tail == CounterBlock(iv, start + 1 + n)
  {
    var jbuf := InitialBuffer(iv, start);
    j0 := jbuf[..];
    Advance(jbuf, iv, start);
    blocks := [];
    for k := 0 to n
      invariant jbuf[..] == CounterBlock(iv, start + 1 + k)
      invariant blocks == CounterBlocks(iv, start + 1, k)
    {
      blocks := blocks + [jbuf[..]];
      Advance(jbuf, iv, start + 1 + k);
    }
    tail := jbuf[..];
  }

  method InitialBuffer(iv: seq<Byte>, start: nat) returns (jbuf: array<Byte>)
    requires |iv| == 12 && start < B32
    ensures fresh(jbuf) && jbuf.Length == 16 && jbuf[..] == CounterBlock(iv, start)
  {
    var initial := iv + BigEndian(start, 4);
    jbuf := new Byte[16](i requires 0 <= i < 16 => initial[i]);
    assert jbuf[..] == initial;
    assert start % B32 == start;
  }

  lemma SameCounter(iv: seq<Byte>, c: nat, d: nat, k: nat)
    requires |iv| == 12 && c == d % B32
    ensures CounterBlock(iv, c + k) == CounterBlock(iv, d + k)
  {
    WrapAdd(d, k);
    CounterInjective(iv, c + k, d + k);
  }

  lemma SameCounters(iv: seq<Byte>, c: nat, d: nat, n: nat)
    requires |iv| == 12 && c == d % B32
    ensures CounterBlocks(iv, c, n) == CounterBlocks(iv, d, n)
  {
    forall k | 0 <= k < n
      ensures CounterBlocks(iv, c, n)[k] == CounterBlocks(iv, d, n)[k]
    {
      SameCounter(iv, c, d, k);
    }
  }

  /** unrolled_seq: the register sequence, four blocks at a time. For every
      start and length it is the byte-buffer sequence, wherever the 32-bit
      wrap falls. */
  method UnrolledSeq(iv: seq<Byte>, n: nat, start: nat)
    returns (j0: seq<Byte>, blocks: seq<seq<Byte>>, tail: seq<Byte>)
    requires |iv| == 12
    ensures j0 == CounterBlock(iv, start)
    ensures blocks == CounterBlocks(iv, start + 1, n)
    ensures tail == CounterBlock(iv, start + 1 + n)
  {
    j0 := CounterBlock(iv, start);
    var ctr := (start + 1) % B32;
    blocks := [];
    var groups, rem := n / 4, n % 4;
    for g := 0 to groups
      invariant ctr == (start + 1 + 4 * g) % B32
      invariant blocks == CounterBlocks(iv, start + 1, 4 * g)
    {
      SameCounters(iv, ctr, start + 1 + 4 * g, 4);
      WrapAdd(start + 1 + 4 * g, 4);
      CounterBlocksAppend(iv, start + 1, 4 * g, 4);
      blocks := blocks + CounterBlocks(iv, ctr, 4);
      ctr := (ctr + 4) % B32;
    }
    ghost var done := 4 * groups;
    for k := 0 to rem
      invariant ctr == (start + 1 + done + k) % B32
      invariant blocks == CounterBlocks(iv, start + 1, done + k)
    {
      SameCounters(iv, ctr, start + 1 + done + k, 1);
      WrapAdd(start + 1 + done + k, 1);
      CounterBlocksAppend(iv, start + 1, done + k, 1);
      OneBlock(iv, ctr);
      blocks := blocks + [CounterBlock(iv, ctr)];
      ctr := (ctr + 1) % B32;
    }
    SameCounter(iv, ctr, start + 1 + n, 0);
    tail := CounterBlock(iv, ctr);
  }

  lemma OneBlock(iv: seq<Byte>, c: nat)
    requires |iv| == 12
    ensures CounterBlocks(iv, c, 1) == [CounterBlock(iv, c)]
  {
  }

  lemma CounterBlocksAppend(iv: seq<Byte>, c: nat, n: nat, k: nat)
    requires |iv| == 12
    ensures CounterBlocks(iv, c, n + k) == CounterBlocks(iv, c, n) + CounterBlocks(iv, c + n, k)
  {
  }

  ghost predicate Distinct<T>(s: seq<T>)
  {
    forall i, j | 0 <= i < j < |s| :: s[i] != s[j]
  }

  /** J0, the n counter blocks and the tail block are one run of counters, and
      they are pairwise distinct exactly when n is below 2^32 - 1. */
  lemma CountersDistinct(iv: seq<Byte>, start: nat, n: nat)
    requires |iv| == 12
    ensures var all := [CounterBlock(iv, start)] + CounterBlocks(iv, start + 1, n) + [CounterBlock(iv, start + 1 + n)];
      Distinct(all) <==> n < B32 - 1
  {
    CounterBlocksAppend(iv, start, 1, n);
    CounterBlocksAppend(iv, start, 1 + n, 1);
    OneBlock(iv, start);
    OneBlock(iv, start + 1 + n);
    CountersDistinctRun(iv, start, n + 2);
  }

  lemma CountersDistinctRun(iv: seq<Byte>, start: nat, n: nat)
    requires |iv| == 12
    ensures Distinct(CounterBlocks(iv, start, n)) <==> n <= B32
  {
    if n <= B32 {
      forall i, j | 0 <= i < j < n
        ensures CounterBlocks(iv, start, n)[i] != CounterBlocks(iv, start, n)[j]
      {
        WrapDiffers(start, i, j);
        CounterInjective(iv, start + i, start + j);
      }
    } else {
      CounterRepeats(iv, start, n);
    }
  }

  lemma CounterRepeats(iv: seq<Byte>, start: nat, n: nat)
    requires |iv| == 12 && n > B32
    ensures !Distinct(CounterBlocks(iv, start, n))
  {
    var all := CounterBlocks(iv, start, n);
    CounterInjective(iv, start, start + B32);
    WrapAdd(start, B32);
    assert all[0] == CounterBlock(iv, start);
    assert all[B32] == CounterBlock(iv, start + B32);
  }

  lemma WrapDiffers(c: nat, i: nat, j: nat)
    requires i < j < i + B32
    ensures (c + i) % B32 != (c + j) % B32
  {
  }

  // ---- Sealing -------------------------------------------------------------

  /** One AES block encryption under a fixed key: any function on blocks. */
  type Cipher = seq<Byte> -> seq<Byte>

  ghost predicate BlockCipher(ek: Cipher)
  {
    forall b :: |ek(b)| == 16
  }

  /** Counter mode, byte by byte: byte i is masked by byte i mod 16 of the
      encryption of counter 2 + i div 16. */
  function Ctr(ek: Cipher, iv: seq<Byte>, m: seq<Byte>): (c: seq<Byte>)
    requires |iv| == 12 && forall b :: |ek(b)| == 16
    ensures |c| == |m|
  {
    seq(|m|, i requires 0 <= i < |m| => XorByte(m[i], ek(CounterBlock(iv, 2 + i / 16))[i % 16]))
  }

  /** Counter mode undoes itself. */
  lemma CtrInvolution(ek: Cipher, iv: seq<Byte>, m: seq<Byte>)
    requires |iv| == 12 && BlockCipher(ek)
    ensures Ctr(ek, iv, Ctr(ek, iv, m)) == m
  {
    forall i | 0 <= i < |m|
      ensures Ctr(ek, iv, Ctr(ek, iv, m))[i] == m[i]
    {
      XorByteTwice(m[i], ek(CounterBlock(iv, 2 + i / 16))[i % 16]);
    }
  }

  function PadTo16(b: seq<Byte>): seq<Byte>
  {
    b + ZeroBytes((16 - |b| % 16) % 16)
  }

  /** What is hashed: the padded additional data and ciphertext, and the two
      bit lengths. */
  function HashInput(aad: seq<Byte>, ct: seq<Byte>): seq<Byte>
  {
    PadTo16(aad) + PadTo16(ct) + BigEndian(8 * |aad|, 8) + BigEndian(8 * |ct|, 8)
  }

  function RoundUp(n: nat): (r: nat)
    ensures n <= r < n + 16 && r % 16 == 0
  {
    (n + 15) / 16 * 16
  }

  /** Eight bytes that hold n, high byte first. */
  ghost predicate LengthField(field: seq<Byte>, n: nat) {
    |field| == 8 && forall k: nat | k < 8 :: LengthByte(field[k], n, k)
  }

  ghost predicate LengthByte(b: Byte, n: nat, k: nat)
    requires k < 8
  {
    var w := Pow(256, 7 - k);
    w > 0 && b == n / w % 256
  }

  lemma LengthFieldIs(n: nat)
    ensures LengthField(BigEndian(n, 8), n)
  {
    forall k: nat | k < 8
      ensures LengthByte(BigEndian(n, 8)[k], n, k)
    {
      BigEndianByte(n, 8, k);
    }
  }

  lemma LengthFieldUnique(f: seq<Byte>, n: nat)
    requires LengthField(f, n)
    ensures f == BigEndian(n, 8)
  {
    LengthFieldIs(n);
    forall k: nat | k < 8
      ensures f[k] == BigEndian(n, 8)[k]
    {
      assert LengthByte(f[k], n, k) && LengthByte(BigEndian(n, 8)[k], n, k);
    }
  }

  /** s is padded with zeros to a multiple of 16. */
  ghost predicate PaddedField(p: seq<Byte>, s: seq<Byte>) {
    && |p| == RoundUp(|s|) && p[..|s|] == s
    && forall k | |s| <= k < |p| :: p[k] == 0
  }

  /** What is hashed, byte by byte: aad and ct, each padded, and the bit lengths
      of aad and of ct. */
  ghost predicate HashLayout(data: seq<Byte>, aad: seq<Byte>, ct: seq<Byte>) {
    var a := RoundUp(|aad|);
    var b := a + RoundUp(|ct|);
    && |data| == b + 16
    && PaddedField(data[..a], aad) && PaddedField(data[a..b], ct)
    && LengthField(data[b..b + 8], 8 * |aad|) && LengthField(data[b + 8..], 8 * |ct|)
  }

  lemma HashInputParts(aad: seq<Byte>, ct: seq<Byte>)
    ensures var data, a := HashInput(aad, ct), RoundUp(|aad|);
      var b := a + RoundUp(|ct|);
      && |data| == b + 16 && data[..a] == PadTo16(aad) && data[a..b] == PadTo16(ct)
      && data[b..b + 8] == BigEndian(8 * |aad|, 8) && data[b + 8..] == BigEndian(8 * |ct|, 8)
  {
    PadTo16Field(aad);
    PadTo16Field(ct);
  }

  lemma LayoutIsHashInput(data: seq<Byte>, aad: seq<Byte>, ct: seq<Byte>)
    requires HashLayout(data, aad, ct)
    ensures data == HashInput(aad, ct)
  {
    var a := RoundUp(|aad|);
    var b := a + RoundUp(|ct|);
    PaddedUnique(data[..a], aad);
    PaddedUnique(data[a..b], ct);
    LengthFieldUnique(data[b..b + 8], 8 * |aad|);
    LengthFieldUnique(data[b + 8..], 8 * |ct|);
    FourParts(data, a, b, b + 8);
  }

  lemma FourParts(data: seq<Byte>, a: nat, b: nat, c: nat)
    requires a <= b <= c <= |data|
    ensures data == data[..a] + data[a..b] + data[b..c] + data[c..]
  {
  }

  /** HashInput has that layout, and nothing else has. */
  lemma HashInputLayout(aad: seq<Byte>, ct: seq<Byte>, data: seq<Byte>)
    ensures HashLayout(data, aad, ct) <==> data == HashInput(aad, ct)
  {
    HashInputParts(aad, ct);
    PadTo16Field(aad);
    PadTo16Field(ct);
    LengthFieldIs(8 * |aad|);
    LengthFieldIs(8 * |ct|);
    if HashLayout(data, aad, ct) {
      LayoutIsHashInput(data, aad, ct);
    }
  }

  lemma PadTo16Field(s: seq<Byte>)
    ensures PaddedField(PadTo16(s), s)
  {
    var p := PadTo16(s);
    assert |p| == RoundUp(|s|);
    assert p[..|s|] == s;
  }

  lemma PaddedUnique(p: seq<Byte>, s: seq<Byte>)
    requires PaddedField(p, s)
    ensures p == PadTo16(s)
  {
    PadTo16Field(s);
    assert p == p[..|s|] + p[|s|..] && PadTo16(s) == s + PadTo16(s)[|s|..];
  }

  lemma CtrBlock(ek: Cipher, iv: seq<Byte>, pt: seq<Byte>, i: nat, n: nat)
    requires |iv| == 12 && BlockCipher(ek) && 16 * i <= |pt| && n <= 16 && 16 * i + n <= |pt|
    ensures Ctr(ek, iv, pt)[..16 * i] + XorBytes(pt[16 * i..16 * i + n], ek(CounterBlock(iv, 2 + i)))
         == Ctr(ek, iv, pt)[..16 * i + n]
  {
    var c := Ctr(ek, iv, pt);
    var x := XorBytes(pt[16 * i..16 * i + n], ek(CounterBlock(iv, 2 + i)));
    forall k | 0 <= k < n
      ensures x[k] == c[16 * i + k]
    {
      assert (16 * i + k) / 16 == i && (16 * i + k) % 16 == k;
    }
  }

  lemma CtrTail(ek: Cipher, iv: seq<Byte>, pt: seq<Byte>, n: nat, rem: nat)
    requires |iv| == 12 && BlockCipher(ek) && |pt| == 16 * n + rem && rem < 16
    ensures Ctr(ek, iv, pt)[..16 * n] + XorBytes(pt[16 * n..], ek(CounterBlock(iv, 2 + n))[..rem]) == Ctr(ek, iv, pt)
  {
    var ks := ek(CounterBlock(iv, 2 + n));
    CtrBlock(ek, iv, pt, n, rem);
    assert pt[16 * n..16 * n + rem] == pt[16 * n..];
    XorBytesShort(pt[16 * n..], ks, rem);
  }

  lemma XorBytesShort(a: seq<Byte>, b: seq<Byte>, n: nat)
    requires |a| <= n <= |b|
    ensures XorBytes(a, b[..n]) == XorBytes(a, b)
  {
  }

  /** The CTR half of seal, given its counter blocks. */
  method CtrSeal(ek: Cipher, iv: seq<Byte>, pt: seq<Byte>, blocks: seq<seq<Byte>>, tailBlock: seq<Byte>)
    returns (ct: seq<Byte>)
    requires |iv| == 12 && BlockCipher(ek)
    requires blocks == CounterBlocks(iv, 2, |pt| / 16) && tailBlock == CounterBlock(iv, 2 + |pt| / 16)
    ensures ct == Ctr(ek, iv, pt)
  {
    var nblocks, rem := |pt| / 16, |pt| % 16;
    ghost var whole := Ctr(ek, iv, pt);
    ct := [];
    for i := 0 to nblocks
      invariant ct == whole[..16 * i]
    {
      CtrBlock(ek, iv, pt, i, 16);
      assert blocks[i] == CounterBlock(iv, 2 + i);
      ct := ct + XorBytes(pt[16 * i..16 * i + 16], ek(blocks[i]));
    }
    if rem == 0 {
      assert whole[..16 * nblocks] == whole;
    } else {
      CtrTail(ek, iv, pt, nblocks, rem);
      var ks := ek(tailBlock)[..rem];
      ct := ct + XorBytes(pt[16 * nblocks..], ks);
    }
  }

  /** seal: the ciphertext is counter mode from counter 2, and the tag is the
      masked hash of the ciphertext. */
  method Seal(ek: Cipher, iv: seq<Byte>, aad: seq<Byte>, pt: seq<Byte>)
    returns (ct: seq<Byte>, tag: seq<Byte>)
    requires |iv| == 12 && BlockCipher(ek)
    requires 8 * |aad| < Pow(256, 8) && 8 * |pt| < Pow(256, 8)
    ensures ct == Ctr(ek, iv, pt)
    ensures |tag| == 16 && HashLayout(HashInput(aad, ct), aad, ct)
    ensures BytesBits(tag) == Xor(GhashBits(BytesBits(ek(ZeroBytes(16))), HashInput(aad, ct)),
                                  BytesBits(ek(CounterBlock(iv, 1))))
  {
    var j0, blocks, tailBlock := UnrolledSeq(iv, |pt| / 16, 1);
    ct := CtrSeal(ek, iv, pt, blocks, tailBlock);
    var lens := BigEndian(8 * |aad|, 8) + BigEndian(8 * |pt|, 8);
    var data := PadTo16(aad) + PadTo16(ct) + lens;
    assert data == HashInput(aad, ct);
    HashInputLayout(aad, ct, data);
    var y := Ghash(ek(ZeroBytes(16)), data);
    tag := XorBytes(y, ek(j0));
    BytesBitsXor(y, ek(j0));
  }
}
