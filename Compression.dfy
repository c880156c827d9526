/**
 * The compressor: it counts the byte frequencies, builds the trie and its
 * code table, and writes the container through the bit writer: the trie in
 * preorder, the input length as a 32-bit big-endian number, the code of
 * each input byte in input order, and zero padding to a byte boundary.  A
 * decoder, used only to state that the container can be read back, undoes
 * each part.
 */
module Compression {
  import opened Wrappers
  import opened Bits
  import opened BitWriter
  import opened HuffmanTrie
  import opened CodeTable
  import opened TrieEncoding

  // ---------------------------------------------------------------------
  // Frequencies

  /** `freq[c]` of a hash map whose missing entries read as 0. */
  function Lookup(freq: map<Byte, int>, c: Byte): int
  {
    if c in freq then freq[c] else 0
  }

  /** The table after `freq[c]++` for each byte c of bytes in turn, starting from an empty table. */
  function Frequencies(bytes: seq<Byte>): map<Byte, int>
  {
    if bytes == [] then map[]
    else
      var m := Frequencies(bytes[..|bytes| - 1]);
      var c := bytes[|bytes| - 1];
      m[c := Lookup(m, c) + 1]
  }

  /** A byte has a frequency exactly when it occurs in the input, and its frequency is the number of times it occurs. */
  lemma {:induction false} FrequenciesCount(bytes: seq<Byte>, c: Byte)
    ensures c in Frequencies(bytes) <==> c in bytes
    ensures Lookup(Frequencies(bytes), c) == multiset(bytes)[c]
  {
    if bytes != [] {
      var init := bytes[..|bytes| - 1];
      FrequenciesCount(init, c);
      assert bytes == init + [bytes[|bytes| - 1]];
    }
  }

  /** The symbols of the table are the bytes of the input. */
  lemma FrequenciesKeys(bytes: seq<Byte>)
    ensures forall c :: c in Frequencies(bytes) <==> c in bytes
  {
    forall c ensures c in Frequencies(bytes) <==> c in bytes {
      FrequenciesCount(bytes, c);
    }
  }

  /** Every counted frequency is at least 1. */
  lemma FrequenciesPositive(bytes: seq<Byte>)
    ensures forall c :: c in Frequencies(bytes) ==> Frequencies(bytes)[c] >= 1
  {
    forall c | c in Frequencies(bytes) ensures Frequencies(bytes)[c] >= 1 {
      FrequenciesCount(bytes, c);
    }
  }

  /** Counting one more c adds one to the total of the symbols below k when c is below k. */
  lemma {:induction false} TotalBelowIncrement(m: map<Byte, int>, c: Byte, k: nat)
    requires k <= 256
    ensures TotalBelow(m[c := Lookup(m, c) + 1], k) == TotalBelow(m, k) + (if c < k then 1 else 0)
  {
    if k > 0 {
      TotalBelowIncrement(m, c, k - 1);
    }
  }

  /** The frequencies add up to the input length. */
  lemma {:induction false} FrequenciesTotal(bytes: seq<Byte>)
    ensures TotalFreq(Frequencies(bytes)) == |bytes|
  {
    if bytes != [] {
      var init := bytes[..|bytes| - 1];
      var m := Frequencies(init);
      FrequenciesTotal(init);
      TotalBelowIncrement(m, bytes[|bytes| - 1], 256);
    } else {
      EmptyTableSums(map[], 256);
    }
  }

  // ---------------------------------------------------------------------
  // The payload

  /** `table[c]` of a hash map whose missing entries read as the empty string. */
  function CodeOf(table: map<Byte, seq<bool>>, c: Byte): seq<bool>
  {
    if c in table then table[c] else []
  }

  /** The codes of the bytes, in input order. */
  function Payload(table: map<Byte, seq<bool>>, bytes: seq<Byte>): seq<bool>
  {
    if bytes == [] then [] else CodeOf(table, bytes[0]) + Payload(table, bytes[1..])
  }

  /** Appending a byte appends its code. */
  lemma {:induction false} PayloadSnoc(table: map<Byte, seq<bool>>, bytes: seq<Byte>, c: Byte)
    ensures Payload(table, bytes + [c]) == Payload(table, bytes) + CodeOf(table, c)
  {
    if bytes == [] {
      assert [c][1..] == [];
    } else {
      assert (bytes + [c])[1..] == bytes[1..] + [c];
      PayloadSnoc(table, bytes[1..], c);
    }
  }

  /** The sum of freq[c] * |table[c]| over the symbols c below k. */
  function CodeCost(freq: map<Byte, int>, table: map<Byte, seq<bool>>, k: nat): int
    requires k <= 256
  {
    if k == 0 then 0
    else
      var c := (k - 1) as Byte;
      CodeCost(freq, table, k - 1) + Lookup(freq, c) * |CodeOf(table, c)|
  }

  /** Counting one more c adds c's code length to the cost of the symbols below k when c is below k. */
  lemma {:induction false} CodeCostIncrement(m: map<Byte, int>, table: map<Byte, seq<bool>>, c: Byte, k: nat)
    requires k <= 256
    ensures CodeCost(m[c := Lookup(m, c) + 1], table, k) == CodeCost(m, table, k) + (if c < k then |CodeOf(table, c)| else 0)
  {
    if k > 0 {
      CodeCostIncrement(m, table, c, k - 1);
      var d := (k - 1) as Byte;
      var len := |CodeOf(table, d)|;
      if d == c {
        assert (Lookup(m, c) + 1) * len == Lookup(m, c) * len + len;
      }
    }
  }

  /** An empty table has no weight and no cost. */
  lemma {:induction false} EmptyTableSums(table: map<Byte, seq<bool>>, k: nat)
    requires k <= 256
    ensures TotalBelow(map[], k) == 0 && CodeCost(map[], table, k) == 0
  {
    if k > 0 {
      EmptyTableSums(table, k - 1);
    }
  }

  /** The payload has sum of freq[c] * |code(c)| bits. */
  lemma {:induction false} PayloadLength(table: map<Byte, seq<bool>>, bytes: seq<Byte>)
    ensures |Payload(table, bytes)| == CodeCost(Frequencies(bytes), table, 256)
  {
    if bytes != [] {
      var init, c := bytes[..|bytes| - 1], bytes[|bytes| - 1];
      var m := Frequencies(init);
      assert Frequencies(bytes) == m[c := Lookup(m, c) + 1];
      assert |Payload(table, bytes)| == |Payload(table, init)| + |CodeOf(table, c)| by {
        assert bytes == init + [c];
        PayloadSnoc(table, init, c);
      }
      PayloadLength(table, init);
      CodeCostIncrement(m, table, c, 256);
    } else {
      EmptyTableSums(table, 256);
    }
  }

  // ---------------------------------------------------------------------
  // The container

  /** The length field: `(unsigned int) bytes.length()`. */
  function LengthField(bytes: seq<Byte>): (r: nat)
    ensures r < 0x1_0000_0000 && (|bytes| < 0x1_0000_0000 ==> r == |bytes|)
  {
    |bytes| % 0x1_0000_0000
  }

  /** The bits compress writes before padding, for the trie root. */
  function ContainerBits(root: Node, bytes: seq<Byte>): seq<bool>
  {
    TrieBits(root) + Flatten(BigEndian(LengthField(bytes))) + Payload(CodesOf(root), bytes)
  }

  /** The container's size in bits, part by part. */
  lemma ContainerLength(root: Node, bytes: seq<Byte>)
    ensures |ContainerBits(root, bytes)| == 9 * Leaves(root) + Internals(root) + 32 + CodeCost(Frequencies(bytes), CodesOf(root), 256)
  {
    PayloadLength(CodesOf(root), bytes);
  }

  /** Writes the bits of one code, '0' as a 0 bit and '1' as a 1 bit. */
  method WriteCode(code: seq<bool>, out: BinaryOut)
    requires out.Valid()
    modifies out
    ensures out.Valid() && out.written == old(out.written) + code
  {
    for j := 0 to |code|
      invariant out.Valid() && out.written == old(out.written) + code[..j]
    {
      if !code[j] {
        out.WriteBit(false);
      } else {
        out.WriteBit(true);
      }
      Regroup3(old(out.written), code[..j], [code[j]]);
      assert code[..j + 1] == code[..j] + [code[j]];
    }
    assert code[..|code|] == code;
  }

  /** Writes the code of each byte, in input order. */
  method WritePayload(table: map<Byte, seq<bool>>, bytes: seq<Byte>, out: BinaryOut)
    requires out.Valid()
    modifies out
    ensures out.Valid() && out.written == old(out.written) + Payload(table, bytes)
  {
    for i := 0 to |bytes|
      invariant out.Valid() && out.written == old(out.written) + Payload(table, bytes[..i])
    {
      WriteCode(CodeOf(table, bytes[i]), out);
      assert bytes[..i + 1] == bytes[..i] + [bytes[i]];
      PayloadSnoc(table, bytes[..i], bytes[i]);
      Regroup3(old(out.written), Payload(table, bytes[..i]), CodeOf(table, bytes[i]));
    }
    assert bytes[..|bytes|] == bytes;
  }

  /**
   * Compresses bytes into out.  The source leaves an empty input undefined
   * (the trie of an empty table is the top of an empty queue), hence the
   * precondition.  The trie is returned only to state what was written.
   */
  method Compress(bytes: seq<Byte>, out: BinaryOut) returns (ghost root: Node)
    requires |bytes| > 0 && out.Valid()
    modifies out
    ensures Weighted(root) && SiblingOrdered(root) && LeavesFrom(root, Frequencies(bytes))
    ensures forall s :: Occurrences(root, s) == if s in bytes then 1 else 0
    ensures root.freq == |bytes| && Greedy(root)
    ensures out.Valid() && out.n == 0
    ensures out.written == Padded(old(out.written) + ContainerBits(root, bytes))
    ensures |out.out| == (|old(out.written)| + |ContainerBits(root, bytes)| + 7) / 8
  {
    var freq: map<Byte, int> := map[];
    for i := 0 to |bytes|
      invariant freq == Frequencies(bytes[..i])
    {
      var c := bytes[i];
      assert bytes[..i + 1][..i] == bytes[..i];
      freq := freq[c := Lookup(freq, c) + 1];
    }
    assert bytes[..|bytes|] == bytes;
    FrequenciesKeys(bytes);
    FrequenciesTotal(bytes);
    FrequenciesPositive(bytes);
    assert bytes[0] in freq;
    var trie := BuildTrie(freq);
    root := trie;
    var table := BuildTable(map[], trie, []);
    ghost var w0 := out.written;
    assert w0 == old(out.written);
    WriteTrie(trie, out);
    var length := LengthField(bytes);
    out.WriteUnsignedInt(length);
    WritePayload(table, bytes, out);
    ghost var bits := ContainerBits(root, bytes);
    ghost var full := out.written;
    assert full == w0 + bits by {
      Regroup4(w0, TrieBits(root), Flatten(BigEndian(length)), Payload(table, bytes));
    }
    out.Close();
  }

  /**
   * Of two input bytes, the one that occurs more often gets a code no longer
   * than the other's, as the greedy merges promise.
   */
  lemma FrequentBytesShorterCodes(bytes: seq<Byte>, root: Node, s: Byte, u: Byte)
    requires Weighted(root) && SiblingOrdered(root) && Greedy(root) && LeavesFrom(root, Frequencies(bytes))
    requires forall c :: Occurrences(root, c) == if c in bytes then 1 else 0
    requires s in bytes && u in bytes && multiset(bytes)[s] < multiset(bytes)[u]
    ensures s in CodesOf(root) && u in CodesOf(root) && |CodesOf(root)[u]| <= |CodesOf(root)[s]|
  {
    OnceEach(root, bytes);
    FrequenciesCount(bytes, s);
    FrequenciesCount(bytes, u);
    FrequentSymbolShorterCode(root, Frequencies(bytes), s, u);
  }

  // ---------------------------------------------------------------------
  // Reading the container back

  /** Walks the shape from the root along the bits until a leaf, returning its symbol and the bits after the path. */
  ghost function DecodeSymbol(sh: Shape, bits: seq<bool>): Option<(Byte, seq<bool>)>
    decreases sh
  {
    match sh
    case Tip(s) => Some((s, bits))
    case Fork(l, r) => if bits == [] then None else DecodeSymbol(if bits[0] then r else l, bits[1..])
  }

  /** Decodes count symbols in turn. */
  ghost function DecodeSymbols(sh: Shape, bits: seq<bool>, count: nat): Option<(seq<Byte>, seq<bool>)>
    decreases count
  {
    if count == 0 then Some(([], bits))
    else
      match DecodeSymbol(sh, bits)
      case None => None
      case Some((s, rest)) =>
        match DecodeSymbols(sh, rest, count - 1)
        case None => None
        case Some((ss, rest')) => Some(([s] + ss, rest'))
  }

  /** Reads a container: the trie, then its body. */
  ghost function DecodeContainer(bits: seq<bool>): Option<seq<Byte>>
  {
    match ParseTrie(bits)
    case None => None
    case Some((sh, rest)) => DecodeBody(sh, rest)
  }

  /** Reads what follows the trie: the 32-bit length, then that many symbols; the padding is ignored. */
  ghost function DecodeBody(sh: Shape, bits: seq<bool>): Option<seq<Byte>>
  {
    if |bits| < 32 then None
    else
      match DecodeSymbols(sh, bits[32..], BitsValue(bits[..32]))
      case None => None
      case Some((ss, _)) => Some(ss)
  }

  /** Following the path to a leaf of t reads that leaf's symbol. */
  lemma {:induction false} DecodePath(t: Node, p: seq<bool>, s: Byte, rest: seq<bool>)
    requires LeadsTo(t, p, s)
    ensures DecodeSymbol(ShapeOf(t), p + rest) == Some((s, rest))
    decreases |p|
  {
    match t
    case Leaf(_, _) =>
      assert p + rest == rest;
    case Internal(_, l, r) =>
      assert (p + rest)[0] == p[0] && (p + rest)[1..] == p[1..] + rest;
      DecodePath(if p[0] then r else l, p[1..], s, rest);
  }

  /** The payload of a trie without repeated symbols that holds every input byte decodes to the input. */
  lemma {:induction false} DecodePayload(t: Node, bytes: seq<Byte>, rest: seq<bool>)
    requires Distinct(t) && forall c :: c in bytes ==> c in LeafSet(t)
    ensures DecodeSymbols(ShapeOf(t), Payload(CodesOf(t), bytes) + rest, |bytes|) == Some((bytes, rest))
  {
    if bytes != [] {
      var c, tail := bytes[0], bytes[1..];
      var code := CodesOf(t)[c];
      CodesArePaths(t, c, code);
      DecodePayload(t, tail, rest);
      assert Payload(CodesOf(t), bytes) + rest == code + (Payload(CodesOf(t), tail) + rest);
      var after := Payload(CodesOf(t), tail) + rest;
      DecodePath(t, code, c, after);
      assert [c] + tail == bytes;
    } else {
      assert Payload(CodesOf(t), bytes) + rest == rest;
    }
  }

  /** A body whose first 32 bits hold the input length and whose payload codes the input decodes to the input. */
  lemma DecodeBodyOf(t: Node, lengthBits: seq<bool>, bytes: seq<Byte>, pad: seq<bool>)
    requires |lengthBits| == 32 && BitsValue(lengthBits) == |bytes|
    requires Distinct(t) && forall c :: c in bytes ==> c in LeafSet(t)
    ensures DecodeBody(ShapeOf(t), lengthBits + Payload(CodesOf(t), bytes) + pad) == Some(bytes)
  {
    var after := Payload(CodesOf(t), bytes) + pad;
    var bits := lengthBits + Payload(CodesOf(t), bytes) + pad;
    assert bits[..32] == lengthBits && bits[32..] == after;
    DecodePayload(t, bytes, pad);
  }

  /** A trie with each input byte at exactly one leaf has no repeated symbol and holds every input byte. */
  lemma OnceEach(root: Node, bytes: seq<Byte>)
    requires forall s :: Occurrences(root, s) == if s in bytes then 1 else 0
    ensures Distinct(root) && forall c :: c in bytes ==> c in LeafSet(root)
  {
    DistinctOfOccurrences(root);
    forall c | c in bytes ensures c in LeafSet(root) {
      LeafSetOccurrences(root, c);
    }
  }

  /**
   * Whatever padding follows it, the container of an input shorter than
   * 2^32 bytes, written with a trie that holds each input byte at exactly
   * one leaf, decodes to the input.
   */
  lemma ContainerDecodes(root: Node, bytes: seq<Byte>, pad: seq<bool>)
    requires |bytes| < 0x1_0000_0000
    requires forall s :: Occurrences(root, s) == if s in bytes then 1 else 0
    ensures DecodeContainer(ContainerBits(root, bytes) + pad) == Some(bytes)
  {
    var length := LengthField(bytes);
    assert length == |bytes|;
    var trie, lengthBits, payload := TrieBits(root), Flatten(BigEndian(length)), Payload(CodesOf(root), bytes);
    var body := lengthBits + payload + pad;
    assert DecodeBody(ShapeOf(root), body) == Some(bytes) by {
      OnceEach(root, bytes);
      ValueOfBigEndian(|bytes|);
      DecodeBodyOf(root, lengthBits, bytes, pad);
    }
    assert ParseTrie(trie + body) == Some((ShapeOf(root), body)) by {
      ParseTrieBits(root, body);
    }
    assert ContainerBits(root, bytes) + pad == trie + body by {
      Regroup4(trie, lengthBits, payload, pad);
    }
  }

  /**
   * Compresses bytes onto a freshly opened output stream, as `main` does,
   * and returns the bytes of the stream.  Read back as bits, they decode to
   * the input: the container, its padding included, is lossless.
   */
  method CompressToStream(bytes: seq<Byte>) returns (stream: seq<Byte>)
    requires 0 < |bytes| < 0x1_0000_0000
    ensures DecodeContainer(Flatten(stream)) == Some(bytes)
  {
    var out := new BinaryOut();
    ghost var root := Compress(bytes, out);
    stream := out.out;
    ghost var bits := ContainerBits(root, bytes);
    assert out.written == Flatten(stream) + NatBits(out.buffer, 0) == Flatten(stream);
    assert Flatten(stream) == bits + Zeros(PadLength(|bits| % 8)) by {
      assert [] + bits == bits;
    }
    ContainerDecodes(root, bytes, Zeros(PadLength(|bits| % 8)));
  }
}
