/**
 * The bit writer of the encoder: it packs bits into an 8-bit buffer, most
 * significant first, and appends a byte to the output stream whenever 8 bits
 * have accumulated.  The output file stream is the sequence `out` of the
 * bytes written to it so far.
 */
module BitWriter {
  import opened Bits

  class BinaryOut {
    /** The 8-bit buffer; its low n bits are the pending bits, oldest highest. */
    var buffer: Byte
    /** The number of pending bits in the buffer. */
    var n: int
    /** The bytes written to the output stream so far. */
    var out: seq<Byte>
    /** Every bit written so far, in order, including the padding of flushed partial bytes. */
    ghost var written: seq<bool>

    /**
     * The emitted bytes followed by the pending bits are the bits written so
     * far.  Holds between calls and also in the moment where the 8th pending
     * bit has arrived and the buffer is about to be flushed.
     */
    ghost predicate Inv()
      reads this
    {
      0 <= n <= 8 && buffer < Pow2(n) && written == Flatten(out) + NatBits(buffer, n)
    }

    /** The state between calls: fewer than 8 bits are pending. */
    ghost predicate Valid()
      reads this
    {
      Inv() && n < 8
    }

    constructor ()
      ensures Valid() && n == 0 && buffer == 0 && out == [] && written == []
    {
      buffer, n, out := 0, 0, [];
      written := [];
    }

    /**
     * Shifts the bit into the low end of the buffer and flushes the buffer
     * when it holds 8 bits.
     */
    method WriteBit(x: bool)
      requires Valid()
      modifies this
      ensures Valid() && n == if old(n) == 7 then 0 else old(n) + 1
      ensures written == old(written) + [x]
      ensures old(n) < 7 ==> out == old(out)
      ensures old(n) == 7 ==> out == old(out) + [(2 * old(buffer) + (if x then 1 else 0)) % 256]
    {
      ghost var b, w := buffer, written;
      buffer := (buffer * 2) % 256;
      if x {
        // the shifted buffer is even, so `buffer |= 1` adds one
        buffer := buffer + 1;
      }
      PushKeeps(Flatten(out), b, n, x, w, buffer);
      PushedByte(b, n, x);
      n := n + 1;
      written := written + [x];
      if n == 8 {
        ghost var o := out;
        PadFullByte(buffer);
        ClearBuffer();
        assert out == o + [old((2 * buffer + (if x then 1 else 0)) % 256)];
      }
    }

    /**
     * Writes the 8 bits of x, most significant first: directly as one byte
     * when no bit is pending, otherwise one bit at a time.
     */
    method WriteByte(x: Byte)
      requires Valid()
      modifies this
      ensures Valid() && n == old(n)
      ensures written == old(written) + ByteBits(x)
      ensures old(n) == 0 ==> out == old(out) + [x]
    {
      if n == 0 {
        FlattenSnoc(out, x);
        out := out + [x];
        written := written + ByteBits(x);
      } else {
        for i := 0 to 8
          invariant Valid() && n == if old(n) + i < 8 then old(n) + i else old(n) + i - 8
          invariant written == old(written) + ByteBits(x)[..i]
        {
          var b := BitAt(x, 8 - i - 1);
          ByteBitsStep(x, i);
          WriteBit(b);
          Regroup3(old(written), ByteBits(x)[..i], [b]);
        }
        assert ByteBits(x)[..8] == ByteBits(x);
      }
    }

    /**
     * Writes the four bytes of x, most significant first.  The source's
     * parameter is an `unsigned int`, hence the bound.
     */
    method WriteUnsignedInt(x: nat)
      requires Valid() && x < 0x1_0000_0000
      modifies this
      ensures Valid() && n == old(n)
      ensures written == old(written) + Flatten(BigEndian(x))
      ensures old(n) == 0 ==> out == old(out) + BigEndian(x)
    {
      // bs[0] is (x >> 24) & 0xff, ..., bs[3] is (x >> 0) & 0xff
      var bs := BigEndian(x);
      FlattenFour(bs);
      ghost var w0, o0 := written, out;
      WriteByte(bs[0]);
      WriteByte(bs[1]);
      WriteByte(bs[2]);
      WriteByte(bs[3]);
      Regroup5(w0, ByteBits(bs[0]), ByteBits(bs[1]), ByteBits(bs[2]), ByteBits(bs[3]));
      if old(n) == 0 {
        assert bs == [bs[0]] + [bs[1]] + [bs[2]] + [bs[3]];
        Regroup5(o0, [bs[0]], [bs[1]], [bs[2]], [bs[3]]);
      }
    }

    /**
     * Emits the pending bits, if any, as one byte padded with zeros on the
     * right, and empties the buffer.
     */
    method ClearBuffer()
      requires Inv()
      modifies this
      ensures Valid() && n == 0 && buffer == 0
      ensures out == if old(n) == 0 then old(out) else old(out) + [PaddedByte(old(buffer), old(n))]
      ensures written == old(written) + Zeros(PadLength(old(n))) && written == Flatten(out)
    {
      if n == 0 {
        return;
      }
      FlushPending(out, buffer, n);
      written := written + Zeros(PadLength(n));
      if n > 0 {
        // buffer <<= (8 - n) on an unsigned char
        buffer := PaddedByte(buffer, n);
      }
      out := out + [buffer];
      n := 0;
      buffer := 0;
    }

    /**
     * Flushes the last partial byte.  On a writer with nothing pending it
     * changes nothing, so closing twice is closing once.
     */
    method Close()
      requires Valid()
      modifies this
      ensures Valid() && n == 0 && buffer == 0
      ensures written == Padded(old(written)) && written == Flatten(out)
      ensures |out| == (|old(written)| + 7) / 8
      ensures old(n) == 0 ==> out == old(out) && written == old(written)
    {
      PendingBits(|out|, n);
      ClearBuffer();
    }
  }

  /**
   * The bits written so far determine the writer's whole state: two writers
   * between calls that have taken the same bits have emitted the same bytes
   * and hold the same pending bits.  So the direct path of WriteByte, which
   * emits x at once, is indistinguishable from eight WriteBit calls: both
   * take the same 8 bits.
   */
  lemma {:induction false} WrittenDeterminesState(out1: seq<Byte>, buffer1: nat, n1: nat, out2: seq<Byte>, buffer2: nat, n2: nat, written: seq<bool>)
    requires n1 < 8 && buffer1 < Pow2(n1) && written == Flatten(out1) + NatBits(buffer1, n1)
    requires n2 < 8 && buffer2 < Pow2(n2) && written == Flatten(out2) + NatBits(buffer2, n2)
    ensures out1 == out2 && buffer1 == buffer2 && n1 == n2
  {
    PendingBits(|out1|, n1);
    PendingBits(|out2|, n2);
    assert n1 == n2;
    SplitAppend(Flatten(out1), NatBits(buffer1, n1), Flatten(out2), NatBits(buffer2, n2));
    FlattenInjective(out1, out2);
    ValueOfNatBits(buffer1, n1);
    ValueOfNatBits(buffer2, n2);
  }
}
