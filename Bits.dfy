/**
 * Bit strings, bytes and the 32-bit big-endian layout the Huffman encoder
 * writes.  A bit is a `bool` (true is 1), and every bit string is read most
 * significant bit first, the order in which `BinaryOut` packs bits.
 */
module Bits {

  /** An unsigned 8-bit value: the `unsigned char` the writer buffers and emits. */
  type Byte = x: int | 0 <= x < 256

  /** 2 to the power k. */
  function Pow2(k: nat): (r: nat)
    ensures r >= 1
  {
    if k == 0 then 1 else 2 * Pow2(k - 1)
  }

  lemma {:induction false} Pow2Monotonic(a: nat, b: nat)
    requires a <= b
    ensures Pow2(a) <= Pow2(b)
  {
    if a < b {
      Pow2Monotonic(a, b - 1);
    }
  }

  /** The low k bits of v, most significant first. */
  function NatBits(v: nat, k: nat): (r: seq<bool>)
    ensures |r| == k
  {
    if k == 0 then [] else NatBits(v / 2, k - 1) + [v % 2 == 1]
  }

  /** The 8 bits of a byte, most significant first. */
  function ByteBits(b: Byte): (r: seq<bool>)
    ensures |r| == 8
  {
    NatBits(b, 8)
  }

  /** The number a bit string denotes when read most significant bit first. */
  function BitsValue(bs: seq<bool>): (r: nat)
    ensures r < Pow2(|bs|)
  {
    if bs == [] then 0
    else 2 * BitsValue(bs[..|bs| - 1]) + (if bs[|bs| - 1] then 1 else 0)
  }

  /** k zero bits: the padding `close` adds on the right. */
  function Zeros(k: nat): (r: seq<bool>)
    ensures |r| == k
  {
    if k == 0 then [] else Zeros(k - 1) + [false]
  }

  /** The bits of a byte stream, each byte most significant bit first. */
  function Flatten(bytes: seq<Byte>): (r: seq<bool>)
    ensures |r| == 8 * |bytes|
  {
    if bytes == [] then []
    else Flatten(bytes[..|bytes| - 1]) + ByteBits(bytes[|bytes| - 1])
  }

  /** The four bytes of a 32-bit unsigned value, most significant first. */
  function BigEndian(x: nat): (r: seq<Byte>)
    requires x < 0x1_0000_0000
    ensures |r| == 4
  {
    Digits(x, 4)
  }

  /** The k lowest base-256 digits of x, most significant first. */
  function Digits(x: nat, k: nat): (r: seq<Byte>)
    ensures |r| == k
  {
    if k == 0 then [] else Digits(x / 0x100, k - 1) + [x % 0x100]
  }

  /** The bytes are the masked shifts `(x >> 24) & 0xff`, ..., `(x >> 0) & 0xff`. */
  lemma BigEndianShifts(x: nat)
    requires x < 0x1_0000_0000
    ensures BigEndian(x) == [(x / 0x100_0000) % 0x100, (x / 0x1_0000) % 0x100, (x / 0x100) % 0x100, x % 0x100]
  {
    var q1 := x / 0x100;
    var q2 := q1 / 0x100;
    var q3 := q2 / 0x100;
    DivideTwice(x, 0x100, 0x100);
    DivideTwice(q1, 0x100, 0x100);
    DivideTwice(x, 0x1_0000, 0x100);
    assert q2 == x / 0x1_0000 && q3 == x / 0x100_0000;
    assert Digits(q3, 1) == [q3 % 0x100] by { assert Digits(q3 / 0x100, 0) == []; }
    assert Digits(x, 4) == Digits(q1, 3) + [x % 0x100];
    assert Digits(q1, 3) == Digits(q2, 2) + [q1 % 0x100];
    assert Digits(q2, 2) == Digits(q3, 1) + [q2 % 0x100];
  }

  /** Reading the four bytes back gives x. */
  lemma FromBigEndianOfBytes(x: nat)
    requires x < 0x1_0000_0000
    ensures FromBigEndian(BigEndian(x)) == x
  {
    BigEndianShifts(x);
    BigEndianDigits(x);
  }

  /** The unsigned value of four bytes read most significant first. */
  function FromBigEndian(bs: seq<Byte>): nat
    requires |bs| == 4
  {
    var b0: int, b1: int, b2: int, b3: int := bs[0], bs[1], bs[2], bs[3];
    ((b0 * 0x100 + b1) * 0x100 + b2) * 0x100 + b3
  }

  lemma BigEndianDigits(x: nat)
    requires x < 0x1_0000_0000
    ensures x == (((x / 0x100_0000) % 0x100 * 0x100 + (x / 0x1_0000) % 0x100) * 0x100
                  + (x / 0x100) % 0x100) * 0x100 + x % 0x100
  {
    var q1 := x / 0x100;
    var q2 := q1 / 0x100;
    var q3 := q2 / 0x100;
    DivideTwice(x, 0x100, 0x100);
    DivideTwice(q1, 0x100, 0x100);
    DivideTwice(x, 0x1_0000, 0x100);
    assert q2 == x / 0x1_0000 && q3 == x / 0x100_0000;
    assert q3 < 0x100;
  }

  /** Writing 0x01020304 at a byte boundary emits the bytes 1, 2, 3, 4. */
  lemma BigEndianExample()
    ensures BigEndian(0x0102_0304) == [1, 2, 3, 4]
  {
    BigEndianShifts(0x0102_0304);
  }

  /** Big-endian encoding is injective on four-byte groups: decoding then encoding gives the bytes back. */
  lemma BigEndianOfValue(bs: seq<Byte>)
    requires |bs| == 4
    ensures FromBigEndian(bs) < 0x1_0000_0000 && BigEndian(FromBigEndian(bs)) == bs
  {
    var x := FromBigEndian(bs);
    var b0: int, b1: int, b2: int, b3: int := bs[0], bs[1], bs[2], bs[3];
    var lo1 := b3;
    var lo2 := b2 * 0x100 + b3;
    var lo3 := (b1 * 0x100 + b2) * 0x100 + b3;
    assert x == 0x100_0000 * b0 + lo3;
    DivisionUnique(x, 0x100_0000, b0, lo3);
    assert x == 0x1_0000 * (b0 * 0x100 + b1) + lo2;
    DivisionUnique(x, 0x1_0000, b0 * 0x100 + b1, lo2);
    DivisionUnique(b0 * 0x100 + b1, 0x100, b0, b1);
    assert x == 0x100 * ((b0 * 0x100 + b1) * 0x100 + b2) + lo1;
    DivisionUnique(x, 0x100, (b0 * 0x100 + b1) * 0x100 + b2, lo1);
    DivisionUnique((b0 * 0x100 + b1) * 0x100 + b2, 0x100, b0 * 0x100 + b1, b2);
    DivisionUnique(x, 0x100, x / 0x100, b3);
    BigEndianShifts(x);
  }

  // ---------------------------------------------------------------------
  // Values of bit strings

  /** Appending the k bits of v to a bit string shifts its value left by k and adds v. */
  lemma {:induction false} ValueOfAppend(a: seq<bool>, v: nat, k: nat)
    requires v < Pow2(k)
    ensures BitsValue(a + NatBits(v, k)) == Pow2(k) * BitsValue(a) + v
  {
    if k > 0 {
      var p, w := Pow2(k - 1), BitsValue(a);
      assert v / 2 < p;
      ValueOfAppend(a, v / 2, k - 1);
      var init := a + NatBits(v / 2, k - 1);
      var bs := a + NatBits(v, k);
      assert bs == init + [v % 2 == 1];
      assert bs[..|bs| - 1] == init;
      assert BitsValue(bs) == 2 * BitsValue(init) + v % 2;
      DoubleAndAdd(p, w, v);
    } else {
      assert a + NatBits(v, k) == a;
    }
  }

  lemma DoubleAndAdd(p: int, w: int, v: int)
    ensures 2 * (p * w + v / 2) + v % 2 == (2 * p) * w + v
  {
    assert 2 * (p * w) == (2 * p) * w;
  }

  /** Reading back the k bits of v gives v. */
  lemma ValueOfNatBits(v: nat, k: nat)
    requires v < Pow2(k)
    ensures BitsValue(NatBits(v, k)) == v
  {
    ValueOfAppend([], v, k);
    assert [] + NatBits(v, k) == NatBits(v, k);
  }

  /** Reading back the 8 bits of a byte gives the byte. */
  lemma ValueOfByteBits(b: Byte)
    ensures BitsValue(ByteBits(b)) == b
  {
    assert Pow2(8) == 256;
    ValueOfNatBits(b, 8);
  }

  /** Writing the value of a bit string in as many bits gives the bit string back. */
  lemma {:induction false} NatBitsOfValue(bs: seq<bool>)
    ensures NatBits(BitsValue(bs), |bs|) == bs
  {
    if bs != [] {
      var init := bs[..|bs| - 1];
      NatBitsOfValue(init);
      assert BitsValue(bs) / 2 == BitsValue(init);
      assert bs == init + [bs[|bs| - 1]];
    }
  }

  /** Bit s of v, counted from the least significant end: `((v >> s) & 1) == 1`. */
  function BitAt(v: nat, s: nat): bool
  {
    (v / Pow2(s)) % 2 == 1
  }

  /**
   * Bit i of NatBits(v, k), counted from the most significant end, is bit
   * k - 1 - i of v counted from the least significant end.
   */
  lemma {:induction false} NatBitsAt(v: nat, k: nat, i: nat)
    requires i < k
    ensures NatBits(v, k)[i] == BitAt(v, k - 1 - i)
  {
    if i < k - 1 {
      NatBitsAt(v / 2, k - 1, i);
      HalveThenDivide(v, Pow2(k - 2 - i));
    }
  }

  /** The first i + 1 bits of a byte extend its first i bits by the bit at shift 7 - i. */
  lemma ByteBitsStep(x: Byte, i: nat)
    requires i < 8
    ensures ByteBits(x)[..i + 1] == ByteBits(x)[..i] + [BitAt(x, 7 - i)]
  {
    NatBitsAt(x, 8, i);
  }

  lemma HalveThenDivide(v: nat, p: nat)
    requires p > 0
    ensures v / 2 / p == v / (2 * p)
  {
    DivideTwice(v, 2, p);
  }

  /** Dividing by p and then by d is dividing by p * d: two right shifts make one. */
  lemma DivideTwice(v: nat, p: nat, d: nat)
    requires p > 0 && d > 0
    ensures p * d > 0 && v / p / d == v / (p * d)
  {
    MultiplyAtLeast(p, d);
    var q, r := v / (p * d), v % (p * d);
    var r1, r2 := r / p, r % p;
    assert v == (p * d) * q + r;
    assert r == p * r1 + r2;
    assert v == p * (d * q + r1) + r2 by {
      assert (p * d) * q == p * (d * q);
    }
    DivisionUnique(v, p, d * q + r1, r2);
    assert r1 < d by {
      if r1 >= d {
        MultiplyMonotonic(p, d, r1);
      }
    }
    DivisionUnique(d * q + r1, d, q, r1);
  }

  lemma DivisionUnique(a: int, d: int, q: int, s: int)
    requires d > 0 && 0 <= s < d && a == d * q + s
    ensures a / d == q
  {
    var q', s' := a / d, a % d;
    assert a == d * q' + s' && 0 <= s' < d;
    assert d * (q - q') == s' - s by {
      assert d * (q - q') == d * q - d * q';
    }
    if q - q' >= 1 {
      MultiplyAtLeast(d, q - q');
    } else if q' - q >= 1 {
      MultiplyAtLeast(d, q' - q);
    }
  }

  lemma {:induction false} MultiplyAtLeast(d: int, k: int)
    requires d > 0 && k >= 1
    ensures d * k >= d
  {
    if k > 1 {
      MultiplyAtLeast(d, k - 1);
      assert d * k == d * (k - 1) + d;
    }
  }

  lemma MultiplyMonotonic(p: int, a: int, b: int)
    requires p > 0 && a <= b
    ensures p * a <= p * b
  {
    if a < b {
      MultiplyAtLeast(p, b - a);
      assert p * b - p * a == p * (b - a);
    }
  }

  /**
   * Shifting the n bits of v left by z inside a (n + z)-bit field appends z
   * zero bits: the zero padding of a partial byte.
   */
  lemma {:induction false} ShiftLeftPads(v: nat, n: nat, z: nat)
    requires v < Pow2(n)
    ensures 0 <= v * Pow2(z) < Pow2(n + z)
    ensures NatBits(v * Pow2(z), n + z) == NatBits(v, n) + Zeros(z)
  {
    if z > 0 {
      ShiftLeftPads(v, n, z - 1);
      var m := v * Pow2(z - 1);
      DoubleFactor(v, Pow2(z - 1));
      assert v * Pow2(z) == 2 * m;
      assert NatBits(2 * m, n + z) == NatBits(m, n + z - 1) + [false];
    }
  }

  lemma SmallModulo(m: int)
    requires 0 <= m < 256
    ensures m % 256 == m
  {
  }

  lemma DoubleFactor(v: int, p: int)
    ensures v * (2 * p) == 2 * (v * p)
  {
  }

  // ---------------------------------------------------------------------
  // Byte streams as bit strings

  lemma FlattenSnoc(bytes: seq<Byte>, b: Byte)
    ensures Flatten(bytes + [b]) == Flatten(bytes) + ByteBits(b)
  {
    assert (bytes + [b])[..|bytes|] == bytes;
  }

  lemma {:induction false} FlattenAppend(a: seq<Byte>, b: seq<Byte>)
    ensures Flatten(a + b) == Flatten(a) + Flatten(b)
  {
    if b != [] {
      var init := b[..|b| - 1];
      FlattenAppend(a, init);
      assert a + b == (a + init) + [b[|b| - 1]];
      FlattenSnoc(a + init, b[|b| - 1]);
    } else {
      assert a + b == a;
    }
  }

  /**
   * Distinct byte streams have distinct bit strings: the bits written so far
   * determine the bytes emitted once no bit is pending.
   */
  lemma {:induction false} FlattenInjective(a: seq<Byte>, b: seq<Byte>)
    requires Flatten(a) == Flatten(b)
    ensures a == b
  {
    if a != [] {
      var ia, ib := a[..|a| - 1], b[..|b| - 1];
      var la, lb := a[|a| - 1], b[|b| - 1];
      SplitAppend(Flatten(ia), ByteBits(la), Flatten(ib), ByteBits(lb));
      FlattenInjective(ia, ib);
      ValueOfByteBits(la);
      ValueOfByteBits(lb);
      assert a == ia + [la] && b == ib + [lb];
    }
  }

  /** Two concatenations that agree, with first parts of one length, agree part by part. */
  lemma SplitAppend<T>(x1: seq<T>, x2: seq<T>, y1: seq<T>, y2: seq<T>)
    requires |x1| == |y1| && x1 + x2 == y1 + y2
    ensures x1 == y1 && x2 == y2
  {
    assert x1 == (x1 + x2)[..|x1|] && y1 == (y1 + y2)[..|y1|];
    assert x2 == (x1 + x2)[|x1|..] && y2 == (y1 + y2)[|y1|..];
  }

  /** The bits of four bytes are the bits of each byte in turn. */
  lemma FlattenFour(bs: seq<Byte>)
    requires |bs| == 4
    ensures Flatten(bs) == ByteBits(bs[0]) + ByteBits(bs[1]) + ByteBits(bs[2]) + ByteBits(bs[3])
  {
    assert bs[..1][..0] == [];
    assert Flatten(bs[..1]) == ByteBits(bs[0]);
    assert bs[..2][..1] == bs[..1];
    assert Flatten(bs[..2]) == ByteBits(bs[0]) + ByteBits(bs[1]);
    assert bs[..3][..2] == bs[..2];
    assert Flatten(bs[..3]) == ByteBits(bs[0]) + ByteBits(bs[1]) + ByteBits(bs[2]);
    assert bs[..4] == bs;
  }

  /** A byte stream read as one number, most significant byte first. */
  function BytesValue(bytes: seq<Byte>): nat
  {
    if bytes == [] then 0 else 0x100 * BytesValue(bytes[..|bytes| - 1]) + bytes[|bytes| - 1]
  }

  /** The bits of a byte stream denote the number its bytes denote in base 256. */
  lemma {:induction false} ValueOfFlatten(bytes: seq<Byte>)
    ensures BitsValue(Flatten(bytes)) == BytesValue(bytes)
  {
    if bytes != [] {
      var init, last := bytes[..|bytes| - 1], bytes[|bytes| - 1];
      ValueOfFlatten(init);
      assert Pow2(8) == 0x100;
      ValueOfAppend(Flatten(init), last, 8);
    }
  }

  /** The 32 bits of a big-endian length read back, most significant first, give the length. */
  lemma ValueOfBigEndian(x: nat)
    requires x < 0x1_0000_0000
    ensures |Flatten(BigEndian(x))| == 32 && BitsValue(Flatten(BigEndian(x))) == x
  {
    var bs := BigEndian(x);
    FromBigEndianOfBytes(x);
    ValueOfFlatten(bs);
    var b0: int, b1: int, b2: int, b3: int := bs[0], bs[1], bs[2], bs[3];
    assert bs[..3][..2][..1][..0] == [];
    assert BytesValue(bs[..1]) == b0;
    assert BytesValue(bs[..2]) == 0x100 * b0 + b1 by { assert bs[..2][..1] == bs[..1]; }
    assert BytesValue(bs[..3]) == 0x100 * (0x100 * b0 + b1) + b2 by { assert bs[..3][..2] == bs[..2]; }
    assert BytesValue(bs) == 0x100 * BytesValue(bs[..3]) + b3;
  }

  // ---------------------------------------------------------------------
  // The writer's buffer steps

  /** The number of zero bits that complete n pending bits to a byte. */
  function PadLength(n: nat): (r: nat)
    requires n <= 8
    ensures r < 8 && (n + r) % 8 == 0 && (n == 0 || n == 8 <==> r == 0)
  {
    if n == 0 || n == 8 then 0 else 8 - n
  }

  /** A bit string completed with zeros to a whole number of bytes. */
  function Padded(bits: seq<bool>): (r: seq<bool>)
    ensures |r| % 8 == 0 && |bits| <= |r| < |bits| + 8 && r[..|bits|] == bits
  {
    bits + Zeros(PadLength(|bits| % 8))
  }

  /** Every bit of Zeros(k) is 0. */
  lemma {:induction false} ZerosAreZero(k: nat)
    ensures forall i :: 0 <= i < k ==> !Zeros(k)[i]
  {
    if k > 0 {
      ZerosAreZero(k - 1);
    }
  }

  /** The padding is made of 0 bits only. */
  lemma PaddingIsZero(bits: seq<bool>)
    ensures forall i :: |bits| <= i < |Padded(bits)| ==> !Padded(bits)[i]
  {
    ZerosAreZero(PadLength(|bits| % 8));
  }

  /**
   * Shifting a buffer holding n < 8 pending bits left by one inside a byte
   * and setting the low bit to x appends x to the pending bits.
   */
  lemma PushBit(b: nat, n: nat, x: bool)
    requires n < 8 && b < Pow2(n)
    ensures (b * 2) % 256 == 2 * b
    ensures 2 * b + (if x then 1 else 0) < Pow2(n + 1)
    ensures NatBits(2 * b + (if x then 1 else 0), n + 1) == NatBits(b, n) + [x]
  {
    Pow2Monotonic(n, 7);
    assert Pow2(7) == 128;
  }

  /**
   * The writer's state after a bit is pushed: when the pending bits b of
   * count n follow the emitted bits, the shifted buffer with x in its low
   * bit, of count n + 1, follows them after x is written.
   */
  lemma PushKeeps(emitted: seq<bool>, b: nat, n: nat, x: bool, written: seq<bool>, next: nat)
    requires n < 8 && b < Pow2(n) && written == emitted + NatBits(b, n)
    requires next == (b * 2) % 256 + (if x then 1 else 0)
    ensures next < 256 && next < Pow2(n + 1) && written + [x] == emitted + NatBits(next, n + 1)
  {
    PushBit(b, n, x);
    Pow2Monotonic(n + 1, 8);
    assert Pow2(8) == 256;
    Regroup3(emitted, NatBits(b, n), [x]);
  }

  /** The shifted buffer with x in its low bit is (2 * b + x) modulo 256. */
  lemma PushedByte(b: nat, n: nat, x: bool)
    requires n < 8 && b < Pow2(n)
    ensures (b * 2) % 256 + (if x then 1 else 0) == (2 * b + (if x then 1 else 0)) % 256
  {
    PushBit(b, n, x);
    Pow2Monotonic(n + 1, 8);
    assert Pow2(8) == 256;
  }

  /**
   * The byte `buffer << (8 - n)` for a buffer of n pending bits: the bits
   * moved to the top of the byte with zeros below them.
   */
  function PaddedByte(b: Byte, n: nat): Byte
    requires n <= 8
  {
    (b * Pow2(8 - n)) % 256
  }

  /** A full buffer is emitted as it is. */
  lemma PadFullByte(b: Byte)
    ensures PaddedByte(b, 8) == b
  {
    assert Pow2(0) == 1;
  }

  /**
   * Emitting a buffer of 0 < n <= 8 pending bits shifted left by 8 - n inside
   * a byte appends the pending bits and then zero padding.
   */
  lemma PadPending(b: nat, n: nat)
    requires 0 < n <= 8 && b < Pow2(n)
    ensures b < 256 && ByteBits(PaddedByte(b, n)) == NatBits(b, n) + Zeros(PadLength(n))
  {
    Pow2Monotonic(n, 8);
    assert Pow2(8) == 256;
    var z := 8 - n;
    var m := b * Pow2(z);
    ShiftLeftPads(b, n, z);
    SmallModulo(m);
    assert PaddedByte(b, n) == m;
  }

  /** Emitting the padded buffer appends its pending bits and the padding to the emitted bits. */
  lemma FlushPending(out: seq<Byte>, b: nat, n: nat)
    requires 0 < n <= 8 && b < Pow2(n)
    ensures b < 256 && Flatten(out + [PaddedByte(b, n)]) == Flatten(out) + NatBits(b, n) + Zeros(PadLength(n))
  {
    PadPending(b, n);
    FlattenSnoc(out, PaddedByte(b, n));
  }

  /** After whole bytes and n < 8 pending bits, the pending count is the bit count modulo 8, and the bytes after padding are the bit count rounded up. */
  lemma PendingBits(bytes: nat, n: nat)
    requires n < 8
    ensures (8 * bytes + n) % 8 == n
    ensures (8 * bytes + n + 7) / 8 == bytes + (if n == 0 then 0 else 1)
  {
  }

  /** Concatenation regrouped: three pieces. */
  lemma Regroup3<T>(a: seq<T>, b: seq<T>, c: seq<T>)
    ensures a + b + c == a + (b + c)
  {
  }

  /** Concatenation regrouped: five pieces. */
  lemma Regroup5<T>(a: seq<T>, b: seq<T>, c: seq<T>, d: seq<T>, e: seq<T>)
    ensures a + b + c + d + e == a + (b + c + d + e)
  {
  }

  /** Concatenation regrouped: four pieces. */
  lemma Regroup4<T>(a: seq<T>, b: seq<T>, c: seq<T>, d: seq<T>)
    ensures a + b + c + d == a + (b + c + d)
  {
  }
}
