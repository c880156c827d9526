/**
 * The serialised trie: a preorder walk that writes 1 and the symbol's 8
 * bits for a leaf, and 0 followed by the left and then the right subtree for
 * an internal node.  A preorder parser, used only to state that the
 * encoding can be read back, recovers the shape and the symbols.
 */
module TrieEncoding {
  import opened Wrappers
  import opened Bits
  import opened BitWriter
  import opened HuffmanTrie

  /** The preorder bits of t. */
  function TrieBits(t: Node): (r: seq<bool>)
    ensures |r| == 9 * Leaves(t) + Internals(t)
  {
    match t
    case Leaf(s, _) => [true] + ByteBits(s)
    case Internal(_, l, r) => [false] + TrieBits(l) + TrieBits(r)
  }

  /** What the encoding keeps of a trie: its shape and its leaf symbols, not the frequencies. */
  datatype Shape = Tip(sym: Byte) | Fork(left: Shape, right: Shape)

  function ShapeOf(t: Node): Shape
  {
    match t
    case Leaf(s, _) => Tip(s)
    case Internal(_, l, r) => Fork(ShapeOf(l), ShapeOf(r))
  }

  /**
   * Reads one preorder-encoded trie from the front of bits and returns it
   * with the bits that follow it, or None when bits run out first.
   */
  ghost function ParseTrie(bits: seq<bool>): (r: Option<(Shape, seq<bool>)>)
    ensures r.Some? ==> |r.value.1| < |bits|
    decreases |bits|
  {
    if bits == [] then None
    else if bits[0] then
      if |bits| < 9 then None
      else
        var v := BitsValue(bits[1..9]);
        assert Pow2(8) == 256;
        Some((Tip(v), bits[9..]))
    else
      match ParseTrie(bits[1..])
      case None => None
      case Some((l, rest)) =>
        match ParseTrie(rest)
        case None => None
        case Some((r, rest')) => Some((Fork(l, r), rest'))
  }

  /** Parsing the preorder bits of t, whatever follows them, gives back t's shape and what follows. */
  lemma {:induction false} ParseTrieBits(t: Node, rest: seq<bool>)
    ensures ParseTrie(TrieBits(t) + rest) == Some((ShapeOf(t), rest))
  {
    var bits := TrieBits(t) + rest;
    match t
    case Leaf(s, _) =>
      assert bits[1..9] == ByteBits(s) && bits[9..] == rest;
      ValueOfByteBits(s);
    case Internal(_, l, r) =>
      Regroup4([false], TrieBits(l), TrieBits(r), rest);
      assert bits[1..] == TrieBits(l) + (TrieBits(r) + rest);
      ParseTrieBits(l, TrieBits(r) + rest);
      ParseTrieBits(r, rest);
  }

  /** Writes the preorder encoding of t through the bit writer. */
  method WriteTrie(t: Node, out: BinaryOut)
    requires out.Valid()
    modifies out
    ensures out.Valid() && out.written == old(out.written) + TrieBits(t)
    decreases t
  {
    match t
    case Leaf(s, _) =>
      ghost var w := out.written;
      out.WriteBit(true);
      out.WriteByte(s);
      Regroup3(w, [true], ByteBits(s));
    case Internal(_, l, r) =>
      ghost var w := out.written;
      out.WriteBit(false);
      WriteTrie(l, out);
      WriteTrie(r, out);
      Regroup4(w, [false], TrieBits(l), TrieBits(r));
  }
}
