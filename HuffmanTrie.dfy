/**
 * The Huffman trie: its nodes, the measures the encoder relies on, and the
 * construction that repeatedly merges the two lightest trees of a
 * min-priority queue ordered by frequency.
 */
module HuffmanTrie {
  import opened Bits

  /**
   * A trie node.  A leaf has no children and carries a symbol; an internal
   * node has exactly two children.  The source gives internal nodes the
   * symbol 0, which nothing reads, so it is dropped here.
   */
  datatype Node = Leaf(sym: Byte, freq: int) | Internal(freq: int, left: Node, right: Node)

  /** The number of leaves of t that carry the symbol s. */
  function Occurrences(t: Node, s: Byte): nat
  {
    match t
    case Leaf(sym, _) => if sym == s then 1 else 0
    case Internal(_, l, r) => Occurrences(l, s) + Occurrences(r, s)
  }

  function Leaves(t: Node): nat
  {
    match t
    case Leaf(_, _) => 1
    case Internal(_, l, r) => Leaves(l) + Leaves(r)
  }

  function Internals(t: Node): nat
  {
    match t
    case Leaf(_, _) => 0
    case Internal(_, l, r) => Internals(l) + Internals(r) + 1
  }

  /** The sum of the leaf frequencies. */
  function LeafWeight(t: Node): int
  {
    match t
    case Leaf(_, f) => f
    case Internal(_, l, r) => LeafWeight(l) + LeafWeight(r)
  }

  /** Every internal node weighs what its two children weigh together. */
  predicate Weighted(t: Node)
  {
    match t
    case Leaf(_, _) => true
    case Internal(f, l, r) => f == l.freq + r.freq && Weighted(l) && Weighted(r)
  }

  /** Every internal node's left child weighs no more than its right child. */
  predicate SiblingOrdered(t: Node)
  {
    match t
    case Leaf(_, _) => true
    case Internal(_, l, r) => l.freq <= r.freq && SiblingOrdered(l) && SiblingOrdered(r)
  }

  /** Every leaf carries a symbol of the table and that symbol's frequency. */
  predicate LeavesFrom(t: Node, freq: map<Byte, int>)
  {
    match t
    case Leaf(s, f) => s in freq && f == freq[s]
    case Internal(_, l, r) => LeavesFrom(l, freq) && LeavesFrom(r, freq)
  }

  /** A tree whose internal nodes all have two children has one more leaf than internal nodes. */
  lemma {:induction false} LeavesOfFullTree(t: Node)
    ensures Leaves(t) == Internals(t) + 1
  {
    match t
    case Leaf(_, _) =>
    case Internal(_, l, r) =>
      LeavesOfFullTree(l);
      LeavesOfFullTree(r);
  }

  /** In a weighted tree the root weight is the total leaf frequency. */
  lemma {:induction false} RootWeight(t: Node)
    requires Weighted(t)
    ensures t.freq == LeafWeight(t)
  {
    match t
    case Leaf(_, _) =>
    case Internal(_, l, r) =>
      RootWeight(l);
      RootWeight(r);
  }

  // ---------------------------------------------------------------------
  // Frequency tables

  /** The sum of the frequencies of the symbols below k. */
  function TotalBelow(freq: map<Byte, int>, k: nat): int
    requires k <= 256
  {
    if k == 0 then 0
    else TotalBelow(freq, k - 1) + (if (k - 1) as Byte in freq then freq[(k - 1) as Byte] else 0)
  }

  /** The sum of all frequencies of the table. */
  function TotalFreq(freq: map<Byte, int>): int
  {
    TotalBelow(freq, 256)
  }

  /** The symbols of the table below k. */
  function KeysBelow(freq: map<Byte, int>, k: nat): set<Byte>
    requires k <= 256
  {
    if k == 0 then {}
    else
      var sym := (k - 1) as Byte;
      if sym in freq then KeysBelow(freq, k - 1) + {sym} else KeysBelow(freq, k - 1)
  }

  /** KeysBelow holds exactly the table's symbols below k. */
  lemma {:induction false} KeysBelowMembers(freq: map<Byte, int>, k: nat)
    requires k <= 256
    ensures forall s :: s in KeysBelow(freq, k) <==> s in freq && s < k
  {
    if k > 0 {
      KeysBelowMembers(freq, k - 1);
    }
  }

  // ---------------------------------------------------------------------
  // The priority queue: a sequence of trees

  /** The leaves carrying s in all trees of the queue. */
  function ForestOccurrences(pq: seq<Node>, s: Byte): nat
  {
    if pq == [] then 0 else Occurrences(pq[0], s) + ForestOccurrences(pq[1..], s)
  }

  /** The root weights of all trees of the queue, summed. */
  function ForestWeight(pq: seq<Node>): int
  {
    if pq == [] then 0 else pq[0].freq + ForestWeight(pq[1..])
  }

  /** The internal nodes of all trees of the queue, counted. */
  function ForestInternals(pq: seq<Node>): nat
  {
    if pq == [] then 0 else Internals(pq[0]) + ForestInternals(pq[1..])
  }

  /** Each tree of the queue is weighted, sibling-ordered and built from the table. */
  predicate ForestFrom(pq: seq<Node>, freq: map<Byte, int>)
  {
    forall i :: 0 <= i < |pq| ==> Weighted(pq[i]) && SiblingOrdered(pq[i]) && LeavesFrom(pq[i], freq)
  }

  /** The weight and the internal nodes of a forest add up over concatenation. */
  lemma {:induction false} ForestAppend(a: seq<Node>, b: seq<Node>)
    ensures ForestWeight(a + b) == ForestWeight(a) + ForestWeight(b)
    ensures ForestInternals(a + b) == ForestInternals(a) + ForestInternals(b)
  {
    if a == [] {
      assert a + b == b;
    } else {
      var ab := a + b;
      assert ab[0] == a[0] && ab[1..] == a[1..] + b;
      ForestAppend(a[1..], b);
    }
  }

  /** The occurrences of a symbol in a forest add up over concatenation. */
  lemma {:induction false} ForestOccurrencesAppend(a: seq<Node>, b: seq<Node>, s: Byte)
    ensures ForestOccurrences(a + b, s) == ForestOccurrences(a, s) + ForestOccurrences(b, s)
  {
    if a == [] {
      assert a + b == b;
    } else {
      var ab := a + b;
      assert ab[0] == a[0] && ab[1..] == a[1..] + b;
      ForestOccurrencesAppend(a[1..], b, s);
    }
  }

  /** The measures of a one-tree queue are the tree's. */
  lemma ForestOfOne(t: Node)
    ensures ForestWeight([t]) == t.freq && ForestInternals([t]) == Internals(t)
    ensures forall s :: ForestOccurrences([t], s) == Occurrences(t, s)
  {
    assert [t][1..] == [];
  }

  /** The queue without its i-th tree; the other trees keep their order. */
  function RemoveAt(pq: seq<Node>, i: nat): (r: seq<Node>)
    requires i < |pq|
    ensures |r| == |pq| - 1
  {
    pq[..i] + pq[i + 1..]
  }

  /** The trees before position i keep their place; those after it move down by one. */
  lemma RemoveAtElements(pq: seq<Node>, i: nat, k: nat)
    requires i < |pq| && k < |pq| - 1
    ensures RemoveAt(pq, i)[k] == pq[if k < i then k else k + 1]
  {
  }

  /** Taking the tree at position i out of the queue takes its measures out. */
  lemma ForestRemove(pq: seq<Node>, i: nat)
    requires i < |pq|
    ensures ForestWeight(pq) == ForestWeight(RemoveAt(pq, i)) + pq[i].freq
    ensures ForestInternals(pq) == ForestInternals(RemoveAt(pq, i)) + Internals(pq[i])
    ensures forall s :: ForestOccurrences(pq, s) == ForestOccurrences(RemoveAt(pq, i), s) + Occurrences(pq[i], s)
  {
    var a, b := pq[..i], pq[i + 1..];
    assert pq == a + ([pq[i]] + b);
    ForestAppend(a, [pq[i]] + b);
    ForestAppend([pq[i]], b);
    ForestAppend(a, b);
    ForestOfOne(pq[i]);
    forall s
      ensures ForestOccurrences(pq, s) == ForestOccurrences(RemoveAt(pq, i), s) + Occurrences(pq[i], s)
    {
      ForestOccurrencesAppend(a, [pq[i]] + b, s);
      ForestOccurrencesAppend([pq[i]], b, s);
      ForestOccurrencesAppend(a, b, s);
    }
  }

  /**
   * The position of the first tree of least weight: what the comparator
   * `lhs->freq > rhs->freq` makes the queue's top.  Which of several equally
   * light trees comes first is not fixed by the source; this picks the
   * earliest, and nothing proved below depends on the choice.
   */
  function MinIndex(pq: seq<Node>): (i: nat)
    requires pq != []
    ensures i < |pq|
  {
    if |pq| == 1 then 0
    else
      var k := MinIndex(pq[..|pq| - 1]);
      if pq[|pq| - 1].freq < pq[k].freq then |pq| - 1 else k
  }

  /** No tree of the queue is lighter than the one at MinIndex, and none before it is as light. */
  lemma {:induction false} MinIndexIsMin(pq: seq<Node>)
    requires pq != []
    ensures forall j :: 0 <= j < |pq| ==> pq[MinIndex(pq)].freq <= pq[j].freq
    ensures forall j :: 0 <= j < MinIndex(pq) ==> pq[MinIndex(pq)].freq < pq[j].freq
  {
    if |pq| > 1 {
      var init := pq[..|pq| - 1];
      MinIndexIsMin(init);
      assert forall j :: 0 <= j < |init| ==> init[j] == pq[j];
    }
  }

  /**
   * The queue holds a forest over the table: each symbol of the table at
   * exactly one leaf and no other symbol, the table's total weight, and
   * |freq| - |pq| internal nodes.
   */
  predicate QueueOf(pq: seq<Node>, freq: map<Byte, int>)
  {
    && ForestFrom(pq, freq)
    && (forall s :: ForestOccurrences(pq, s) == if s in freq then 1 else 0)
    && ForestWeight(pq) == TotalFreq(freq)
    && ForestInternals(pq) + |pq| == |freq|
  }

  /** Taking a tree out of the queue keeps the others as they were. */
  lemma ForestFromRemove(pq: seq<Node>, i: nat, freq: map<Byte, int>)
    requires i < |pq| && ForestFrom(pq, freq)
    ensures ForestFrom(RemoveAt(pq, i), freq)
    ensures forall k :: 0 <= k < |pq| - 1 ==> pq[MinIndex(pq)].freq <= RemoveAt(pq, i)[k].freq
  {
    var r := RemoveAt(pq, i);
    MinIndexIsMin(pq);
    forall k | 0 <= k < |r|
      ensures Weighted(r[k]) && SiblingOrdered(r[k]) && LeavesFrom(r[k], freq)
      ensures pq[MinIndex(pq)].freq <= r[k].freq
    {
      RemoveAtElements(pq, i, k);
    }
  }

  /** Pushing a weighted, sibling-ordered tree built from the table keeps the forest so. */
  lemma ForestFromPush(pq: seq<Node>, t: Node, freq: map<Byte, int>)
    requires ForestFrom(pq, freq) && Weighted(t) && SiblingOrdered(t) && LeavesFrom(t, freq)
    ensures ForestFrom(pq + [t], freq)
  {
    var next := pq + [t];
    forall k | 0 <= k < |next|
      ensures Weighted(next[k]) && SiblingOrdered(next[k]) && LeavesFrom(next[k], freq)
    {
      if k < |pq| {
        assert next[k] == pq[k];
      }
    }
  }

  /** The leaves of the symbols of the table below k, in ascending symbol order. */
  function Seeds(freq: map<Byte, int>, k: nat): seq<Node>
    requires k <= 256
  {
    if k == 0 then []
    else
      var sym := (k - 1) as Byte;
      if sym in freq then Seeds(freq, k - 1) + [Leaf(sym, freq[sym])] else Seeds(freq, k - 1)
  }

  /** The seeded leaves are weighted, sibling-ordered and built from the table. */
  lemma {:induction false} SeedsFrom(freq: map<Byte, int>, k: nat)
    requires k <= 256
    ensures ForestFrom(Seeds(freq, k), freq)
  {
    if k > 0 {
      var sym := (k - 1) as Byte;
      SeedsFrom(freq, k - 1);
      if sym in freq {
        ForestFromPush(Seeds(freq, k - 1), Leaf(sym, freq[sym]), freq);
      }
    }
  }

  /** The seeded leaves weigh the table's total below k and hold no internal node. */
  lemma {:induction false} SeedsWeight(freq: map<Byte, int>, k: nat)
    requires k <= 256
    ensures ForestWeight(Seeds(freq, k)) == TotalBelow(freq, k)
    ensures ForestInternals(Seeds(freq, k)) == 0
  {
    if k > 0 {
      var sym := (k - 1) as Byte;
      SeedsWeight(freq, k - 1);
      if sym in freq {
        var leaf := Leaf(sym, freq[sym]);
        ForestAppend(Seeds(freq, k - 1), [leaf]);
        ForestOfOne(leaf);
      }
    }
  }

  /** The seeded leaves carry each symbol of the table below k once, and no other symbol. */
  lemma {:induction false} SeedsOccurrences(freq: map<Byte, int>, k: nat, s: Byte)
    requires k <= 256
    ensures ForestOccurrences(Seeds(freq, k), s) == if s in freq && s < k then 1 else 0
  {
    if k > 0 {
      var sym := (k - 1) as Byte;
      SeedsOccurrences(freq, k - 1, s);
      if sym in freq {
        var leaf := Leaf(sym, freq[sym]);
        ForestOccurrencesAppend(Seeds(freq, k - 1), [leaf], s);
        ForestOfOne(leaf);
      }
    }
  }

  /** There is one seeded leaf per symbol of the table below k. */
  lemma {:induction false} SeedsCount(freq: map<Byte, int>, k: nat)
    requires k <= 256
    ensures |Seeds(freq, k)| == |KeysBelow(freq, k)|
  {
    if k > 0 {
      var sym := (k - 1) as Byte;
      SeedsCount(freq, k - 1);
      KeysBelowMembers(freq, k - 1);
      if sym in freq {
        assert sym !in KeysBelow(freq, k - 1);
      }
    }
  }

  /** Once every symbol is seeded, the queue is a forest of |freq| leaves and no merges. */
  lemma SeededQueue(freq: map<Byte, int>)
    ensures QueueOf(Seeds(freq, 256), freq) && ForestInternals(Seeds(freq, 256)) == 0
  {
    SeedsFrom(freq, 256);
    SeedsWeight(freq, 256);
    SeedsCount(freq, 256);
    KeysBelowMembers(freq, 256);
    assert KeysBelow(freq, 256) == freq.Keys;
    forall s ensures ForestOccurrences(Seeds(freq, 256), s) == if s in freq then 1 else 0 {
      SeedsOccurrences(freq, 256, s);
    }
  }

  /**
   * One round of the merge loop: the two lightest trees are taken out and
   * their merge is pushed.  The result is again a queue over the table: one
   * tree shorter, with one more internal node.
   */
  lemma MergeKeeps(pq: seq<Node>, freq: map<Byte, int>, i: nat, rest: seq<Node>, j: nat, next: seq<Node>)
    requires |pq| > 1 && QueueOf(pq, freq)
    requires i == MinIndex(pq) && rest == RemoveAt(pq, i) && j == MinIndex(rest)
    requires next == RemoveAt(rest, j) + [Internal(pq[i].freq + rest[j].freq, pq[i], rest[j])]
    ensures QueueOf(next, freq) && |next| == |pq| - 1
  {
    var rest2 := RemoveAt(rest, j);
    ForestRemove(pq, i);
    ForestFromRemove(pq, i, freq);
    ForestRemove(rest, j);
    ForestFromRemove(rest, j, freq);
    var merged := Internal(pq[i].freq + rest[j].freq, pq[i], rest[j]);
    ForestAppend(rest2, [merged]);
    ForestOfOne(merged);
    ForestFromPush(rest2, merged, freq);
    forall s ensures ForestOccurrences(next, s) == ForestOccurrences(pq, s) {
      ForestOccurrencesAppend(rest2, [merged], s);
    }
  }

  // ---------------------------------------------------------------------
  // The order the greedy merges leave in the trie

  /** The weights of the two children of an internal node, left first. */
  function Siblings(t: Node): (int, int)
    requires t.Internal?
  {
    (t.left.freq, t.right.freq)
  }

  /** Two sibling pairs do not interleave: one lies wholly at or below the other. */
  predicate Apart(a: (int, int), b: (int, int))
  {
    a.1 <= b.0 || b.1 <= a.0
  }

  /** The pair a lies apart from the sibling pair of every internal node of t. */
  predicate ApartFrom(a: (int, int), t: Node)
  {
    match t
    case Leaf(_, _) => true
    case Internal(_, l, r) => Apart(a, (l.freq, r.freq)) && ApartFrom(a, l) && ApartFrom(a, r)
  }

  /** Every sibling pair of s lies apart from every sibling pair of t. */
  predicate Cross(s: Node, t: Node)
  {
    match s
    case Leaf(_, _) => true
    case Internal(_, l, r) => ApartFrom((l.freq, r.freq), t) && Cross(l, t) && Cross(r, t)
  }

  /** No node below the root of t weighs more than v. */
  predicate Below(t: Node, v: int)
  {
    match t
    case Leaf(_, _) => true
    case Internal(_, l, r) => l.freq <= v && r.freq <= v && Below(l, v) && Below(r, v)
  }

  /** A bound on the nodes below the root holds for every larger bound. */
  lemma {:induction false} BelowMonotonic(t: Node, v: int, w: int)
    requires Below(t, v) && v <= w
    ensures Below(t, w)
  {
    match t
    case Leaf(_, _) =>
    case Internal(_, l, r) =>
      BelowMonotonic(l, v, w);
      BelowMonotonic(r, v, w);
  }

  /** A pair at or above every node below the root of t lies apart from all of t's sibling pairs. */
  lemma {:induction false} ApartFromBelow(a: (int, int), t: Node)
    requires Below(t, a.0)
    ensures ApartFrom(a, t)
  {
    match t
    case Leaf(_, _) =>
    case Internal(_, l, r) =>
      ApartFromBelow(a, l);
      ApartFromBelow(a, r);
  }

  /**
   * The sibling pairs of d lie apart from those of the merge of a and b
   * when they lie apart from those of a and of b and d's nodes below its
   * root weigh no more than a.
   */
  lemma {:induction false} CrossMerged(d: Node, f: int, a: Node, b: Node)
    requires Cross(d, a) && Cross(d, b) && Below(d, a.freq)
    ensures Cross(d, Internal(f, a, b))
  {
    match d
    case Leaf(_, _) =>
    case Internal(_, l, r) =>
      CrossMerged(l, f, a, b);
      CrossMerged(r, f, a, b);
  }

  /**
   * The two children of every internal node weigh at least as much as every
   * node below them, and the sibling pairs of its two subtrees lie apart:
   * the two trees merged last were the two lightest, and everything merged
   * before them was lighter still.
   */
  predicate Layered(t: Node)
  {
    match t
    case Leaf(_, _) => true
    case Internal(_, l, r) => Layered(l) && Layered(r) && Cross(l, r) && Below(l, l.freq) && Below(r, l.freq)
  }

  /** The shape repeated merging of the two lightest trees gives a trie. */
  predicate Greedy(t: Node)
  {
    Layered(t) && Below(t, t.freq)
  }

  /** No symbol of the table has a negative frequency, as with counted frequencies. */
  predicate NonNegative(freq: map<Byte, int>)
  {
    forall s :: s in freq ==> freq[s] >= 0
  }

  /**
   * The queue as the merges leave it: every tree layered and of weight at
   * least 0, the sibling pairs of any two trees apart, and no node below a
   * root heavier than any root.
   */
  predicate GreedyForest(pq: seq<Node>)
  {
    && (forall i :: 0 <= i < |pq| ==> Layered(pq[i]) && pq[i].freq >= 0)
    && (forall i, j :: 0 <= i < |pq| && 0 <= j < |pq| && i != j ==> Cross(pq[i], pq[j]))
    && (forall i, j :: 0 <= i < |pq| && 0 <= j < |pq| ==> Below(pq[i], pq[j].freq))
  }

  /** The seeded queue holds leaves only. */
  lemma {:induction false} SeedsAreLeaves(freq: map<Byte, int>, k: nat)
    requires k <= 256
    ensures forall m :: 0 <= m < |Seeds(freq, k)| ==> Seeds(freq, k)[m].Leaf?
  {
    if k > 0 {
      SeedsAreLeaves(freq, k - 1);
    }
  }

  /** A queue of leaves of weight at least 0 has no sibling pairs, so it is a greedy forest. */
  lemma SeededGreedy(freq: map<Byte, int>)
    requires NonNegative(freq)
    ensures GreedyForest(Seeds(freq, 256))
  {
    SeedsAreLeaves(freq, 256);
    SeedsFrom(freq, 256);
  }

  /**
   * Taking a tree out of a greedy queue leaves a greedy queue, whose trees
   * keep their relations to the tree taken out.
   */
  lemma RemoveAtGreedy(pq: seq<Node>, i: nat)
    requires i < |pq| && GreedyForest(pq)
    ensures GreedyForest(RemoveAt(pq, i))
    ensures forall k :: 0 <= k < |pq| - 1 ==>
      var d := RemoveAt(pq, i)[k];
      Cross(d, pq[i]) && Cross(pq[i], d) && Below(d, pq[i].freq) && Below(pq[i], d.freq)
  {
    var r := RemoveAt(pq, i);
    forall k | 0 <= k < |r|
      ensures r[k] == pq[if k < i then k else k + 1]
    {
      RemoveAtElements(pq, i, k);
    }
  }

  /** The merge of the two lightest trees of a greedy forest is layered, and no node in it weighs more than its root. */
  lemma MergedLayered(a: Node, b: Node)
    requires Layered(a) && Layered(b) && Cross(a, b) && Below(a, a.freq) && Below(b, a.freq)
    requires 0 <= a.freq <= b.freq
    ensures var c := Internal(a.freq + b.freq, a, b); Layered(c) && Below(c, c.freq)
  {
    BelowMonotonic(a, a.freq, a.freq + b.freq);
    BelowMonotonic(b, a.freq, a.freq + b.freq);
  }

  /**
   * What the two lightest trees a and b of a greedy queue share with each
   * tree d left after taking them out: d weighs at least as much as both,
   * their sibling pairs lie apart, and no node below a root weighs more
   * than a or d.
   */
  predicate LighterPair(a: Node, b: Node, d: Node)
  {
    && b.freq <= d.freq && Cross(d, a) && Cross(d, b) && Cross(a, d) && Cross(b, d)
    && Below(d, a.freq) && Below(a, d.freq) && Below(b, d.freq)
  }

  /**
   * Pushing the merge of a and b onto a greedy forest of trees that each
   * stand to a and b as LighterPair says keeps it greedy: the new pair of
   * siblings lies at or above every pair already there.
   */
  lemma PushMergedGreedy(others: seq<Node>, a: Node, b: Node, c: Node)
    requires GreedyForest(others)
    requires Layered(a) && Layered(b) && Cross(a, b) && Below(a, a.freq) && Below(b, a.freq)
    requires 0 <= a.freq <= b.freq && c == Internal(a.freq + b.freq, a, b)
    requires forall k :: 0 <= k < |others| ==> LighterPair(a, b, others[k])
    ensures GreedyForest(others + [c])
  {
    var next := others + [c];
    MergedLayered(a, b);
    assert forall k :: 0 <= k < |others| ==> next[k] == others[k];
    assert next[|others|] == c;
    forall x | 0 <= x < |others|
      ensures Below(others[x], c.freq) && Below(c, others[x].freq)
      ensures Cross(others[x], c) && Cross(c, others[x])
    {
      var d := others[x];
      assert LighterPair(a, b, d);
      BelowMonotonic(d, a.freq, c.freq);
      CrossMerged(d, c.freq, a, b);
      ApartFromBelow((a.freq, b.freq), d);
    }
  }

  /**
   * Taking the two lightest trees a and b out of a greedy queue leaves a
   * greedy queue whose every tree stands to a and b as LighterPair says.
   */
  lemma RemoveLightestGreedy(pq: seq<Node>, i: nat, rest: seq<Node>, j: nat, others: seq<Node>)
    requires |pq| > 1 && GreedyForest(pq)
    requires i == MinIndex(pq) && rest == RemoveAt(pq, i) && j == MinIndex(rest) && others == RemoveAt(rest, j)
    ensures GreedyForest(others)
    ensures pq[i].freq <= rest[j].freq && Layered(rest[j]) && rest[j].freq >= 0
    ensures Cross(pq[i], rest[j]) && Below(pq[i], pq[i].freq) && Below(rest[j], pq[i].freq)
    ensures forall k :: 0 <= k < |others| ==> LighterPair(pq[i], rest[j], others[k])
  {
    RemoveAtGreedy(pq, i);
    RemoveAtGreedy(rest, j);
    MinIndexIsMin(pq);
    MinIndexIsMin(rest);
    RemoveAtElements(pq, i, j);
    forall k | 0 <= k < |others|
      ensures LighterPair(pq[i], rest[j], others[k])
    {
      var k1 := if k < j then k else k + 1;
      RemoveAtElements(rest, j, k);
      assert others[k] == rest[k1];
      assert Cross(rest[k1], pq[i]) && Cross(pq[i], rest[k1]) && Below(rest[k1], pq[i].freq) && Below(pq[i], rest[k1].freq);
      assert rest[j].freq <= rest[k1].freq;
    }
  }

  /**
   * One round of the merge loop keeps the queue a greedy forest: the two
   * trees taken out weigh no more than any tree left, so the new pair of
   * siblings lies at or above every pair already in the forest.
   */
  lemma MergeKeepsGreedy(pq: seq<Node>, i: nat, rest: seq<Node>, j: nat, next: seq<Node>)
    requires |pq| > 1 && GreedyForest(pq)
    requires i == MinIndex(pq) && rest == RemoveAt(pq, i) && j == MinIndex(rest)
    requires next == RemoveAt(rest, j) + [Internal(pq[i].freq + rest[j].freq, pq[i], rest[j])]
    ensures GreedyForest(next)
  {
    var others := RemoveAt(rest, j);
    RemoveLightestGreedy(pq, i, rest, j, others);
    PushMergedGreedy(others, pq[i], rest[j], Internal(pq[i].freq + rest[j].freq, pq[i], rest[j]));
  }

  // ---------------------------------------------------------------------
  // Depth and weight in a greedy trie

  /** Following p from the root of t, false to the left and true to the right, stays inside t. */
  predicate ValidPath(t: Node, p: seq<bool>)
    decreases |p|
  {
    p == [] || (t.Internal? && ValidPath(if p[0] then t.right else t.left, p[1..]))
  }

  /** The node reached from the root of t along p; its depth is |p|. */
  function Sub(t: Node, p: seq<bool>): Node
    requires ValidPath(t, p)
    decreases |p|
  {
    if p == [] then t else Sub(if p[0] then t.right else t.left, p[1..])
  }

  /** A node below the root is a child of the node one step up. */
  lemma {:induction false} SubParent(t: Node, p: seq<bool>)
    requires ValidPath(t, p) && p != []
    ensures ValidPath(t, p[..|p| - 1]) && Sub(t, p[..|p| - 1]).Internal?
    ensures Sub(t, p) == if p[|p| - 1] then Sub(t, p[..|p| - 1]).right else Sub(t, p[..|p| - 1]).left
    decreases |p|
  {
    var c := if p[0] then t.right else t.left;
    if |p| > 1 {
      SubParent(c, p[1..]);
      assert p[1..][..|p| - 2] == p[..|p| - 1][1..];
    }
  }

  /** Every node of a weighted, sibling-ordered tree is weighted and sibling-ordered. */
  lemma {:induction false} SubWeighted(t: Node, p: seq<bool>)
    requires ValidPath(t, p) && Weighted(t) && SiblingOrdered(t)
    ensures Weighted(Sub(t, p)) && SiblingOrdered(Sub(t, p))
    decreases |p|
  {
    if p != [] {
      SubWeighted(if p[0] then t.right else t.left, p[1..]);
    }
  }

  /** The children of every internal node of t weigh no more than a bound on the nodes below t's root. */
  lemma {:induction false} SubSiblingsBelow(t: Node, p: seq<bool>, v: int)
    requires ValidPath(t, p) && Sub(t, p).Internal? && Below(t, v)
    ensures Sub(t, p).left.freq <= v && Sub(t, p).right.freq <= v
    decreases |p|
  {
    if p != [] {
      SubSiblingsBelow(if p[0] then t.right else t.left, p[1..], v);
    }
  }

  /** A pair apart from all sibling pairs of t is apart from the pair of each internal node of t. */
  lemma {:induction false} ApartFromSub(a: (int, int), t: Node, q: seq<bool>)
    requires ValidPath(t, q) && Sub(t, q).Internal? && ApartFrom(a, t)
    ensures Apart(a, Siblings(Sub(t, q)))
    decreases |q|
  {
    if q != [] {
      ApartFromSub(a, if q[0] then t.right else t.left, q[1..]);
    }
  }

  /** When the sibling pairs of s and t lie apart, so do those of any internal node of s and any of t. */
  lemma {:induction false} CrossSub(s: Node, t: Node, p: seq<bool>, q: seq<bool>)
    requires ValidPath(s, p) && Sub(s, p).Internal? && ValidPath(t, q) && Sub(t, q).Internal? && Cross(s, t)
    ensures Apart(Siblings(Sub(s, p)), Siblings(Sub(t, q)))
    decreases |p|
  {
    if p == [] {
      ApartFromSub(Siblings(s), t, q);
    } else {
      CrossSub(if p[0] then s.right else s.left, t, p[1..], q);
    }
  }

  /** A leaf of a tree built from the table carries a symbol of the table and its frequency. */
  lemma {:induction false} SubLeaf(t: Node, p: seq<bool>, freq: map<Byte, int>)
    requires ValidPath(t, p) && Sub(t, p).Leaf? && LeavesFrom(t, freq)
    ensures Sub(t, p).sym in freq && Sub(t, p).freq == freq[Sub(t, p).sym]
    decreases |p|
  {
    if p != [] {
      SubLeaf(if p[0] then t.right else t.left, p[1..], freq);
    }
  }

  /** The sibling pairs of two distinct internal nodes of a layered tree lie apart. */
  lemma {:induction false} NodesApart(t: Node, p: seq<bool>, q: seq<bool>)
    requires Layered(t) && ValidPath(t, p) && ValidPath(t, q) && p != q
    requires Sub(t, p).Internal? && Sub(t, q).Internal?
    ensures Apart(Siblings(Sub(t, p)), Siblings(Sub(t, q)))
    decreases |p| + |q|
  {
    var l, r := t.left, t.right;
    if p == [] {
      SubSiblingsBelow(if q[0] then r else l, q[1..], l.freq);
    } else if q == [] {
      SubSiblingsBelow(if p[0] then r else l, p[1..], l.freq);
    } else if p[0] == q[0] {
      assert p == [p[0]] + p[1..] && q == [q[0]] + q[1..];
      NodesApart(if p[0] then r else l, p[1..], q[1..]);
    } else if !p[0] {
      CrossSub(l, r, p[1..], q[1..]);
    } else {
      CrossSub(l, r, q[1..], p[1..]);
    }
  }

  /**
   * In a greedy trie a lighter node lies at least as deep as a heavier one:
   * the parents of two nodes of different weights are either one node or
   * again of different weights, in the same order, up to the root.
   */
  lemma {:induction false} DeeperWhenLighter(t: Node, p: seq<bool>, q: seq<bool>)
    requires Weighted(t) && SiblingOrdered(t) && Greedy(t)
    requires ValidPath(t, p) && ValidPath(t, q) && Sub(t, p).freq < Sub(t, q).freq
    ensures |q| <= |p|
    decreases |q|
  {
    if q == [] {
    } else if p == [] {
      SubParent(t, q);
      SubSiblingsBelow(t, q[..|q| - 1], t.freq);
      assert false;
    } else {
      var pp, qq := p[..|p| - 1], q[..|q| - 1];
      SubParent(t, p);
      SubParent(t, q);
      if pp != qq {
        SubWeighted(t, pp);
        SubWeighted(t, qq);
        NodesApart(t, pp, qq);
        DeeperWhenLighter(t, pp, qq);
      }
    }
  }

  /** When one tree is left, it is the whole forest. */
  lemma LastTree(pq: seq<Node>, freq: map<Byte, int>)
    requires |pq| == 1 && QueueOf(pq, freq)
    ensures var t := pq[0];
            && Weighted(t) && SiblingOrdered(t) && LeavesFrom(t, freq)
            && (forall s :: Occurrences(t, s) == if s in freq then 1 else 0)
            && Internals(t) == |freq| - 1 && t.freq == TotalFreq(freq)
  {
    assert pq == [pq[0]];
    ForestOfOne(pq[0]);
  }

  /**
   * Seeds the queue with one leaf per symbol of the table, then merges the
   * two lightest trees into one until a single tree remains.  The table is
   * walked in ascending symbol order where the source walks its hash map in
   * an unspecified order.
   */
  method BuildTrie(freq: map<Byte, int>) returns (root: Node)
    requires |freq| > 0
    ensures Weighted(root) && SiblingOrdered(root) && LeavesFrom(root, freq)
    ensures forall s :: Occurrences(root, s) == if s in freq then 1 else 0
    ensures Internals(root) == |freq| - 1
    ensures root.freq == TotalFreq(freq)
    ensures NonNegative(freq) ==> Greedy(root)
  {
    var pq: seq<Node> := [];
    for s := 0 to 256
      invariant pq == Seeds(freq, s)
    {
      var sym := s as Byte;
      if sym in freq {
        pq := pq + [Leaf(sym, freq[sym])];
      }
    }
    SeededQueue(freq);
    if NonNegative(freq) {
      SeededGreedy(freq);
    }
    while |pq| > 1
      invariant pq != [] && QueueOf(pq, freq)
      invariant NonNegative(freq) ==> GreedyForest(pq)
    {
      ghost var before := pq;
      var i := MinIndex(pq);
      var left := pq[i];
      pq := RemoveAt(pq, i);
      ghost var rest := pq;
      var j := MinIndex(pq);
      var right := pq[j];
      pq := RemoveAt(pq, j);
      pq := pq + [Internal(left.freq + right.freq, left, right)];
      MergeKeeps(before, freq, i, rest, j, pq);
      if NonNegative(freq) {
        MergeKeepsGreedy(before, i, rest, j, pq);
      }
    }
    root := pq[0];
    LastTree(pq, freq);
    pq := pq[1..];
  }
}
