/**
 * The code table: every leaf symbol gets the bits of the path from the root
 * to its leaf, `false` ('0') for a left step and `true` ('1') for a right
 * step.
 */
module CodeTable {
  import opened Bits
  import opened HuffmanTrie

  /**
   * The table after recording the codes of t's leaves, where code is the
   * path from the root to t: left subtree first, then right, a later leaf
   * overwriting an earlier one with the same symbol.
   */
  function BuildTable(table: map<Byte, seq<bool>>, t: Node, code: seq<bool>): (r: map<Byte, seq<bool>>)
    ensures forall s :: s in r <==> s in table || s in LeafSet(t)
    decreases t
  {
    match t
    case Leaf(s, _) => table[s := code]
    case Internal(_, l, rt) => BuildTable(BuildTable(table, l, code + [false]), rt, code + [true])
  }

  /** The leaf symbols of t, as a set. */
  function LeafSet(t: Node): set<Byte>
  {
    match t
    case Leaf(s, _) => {s}
    case Internal(_, l, r) => LeafSet(l) + LeafSet(r)
  }

  /** Following the path p down from the root of t ends at a leaf with symbol s. */
  predicate LeadsTo(t: Node, p: seq<bool>, s: Byte)
    decreases |p|
  {
    match t
    case Leaf(sym, _) => p == [] && sym == s
    case Internal(_, l, r) => p != [] && LeadsTo(if p[0] then r else l, p[1..], s)
  }

  /** No symbol sits at two leaves. */
  predicate Distinct(t: Node)
  {
    match t
    case Leaf(_, _) => true
    case Internal(_, l, r) => Distinct(l) && Distinct(r) && LeafSet(l) !! LeafSet(r)
  }

  /** A symbol is in the leaf set exactly when some leaf carries it. */
  lemma {:induction false} LeafSetOccurrences(t: Node, s: Byte)
    ensures s in LeafSet(t) <==> Occurrences(t, s) > 0
  {
    match t
    case Leaf(_, _) =>
    case Internal(_, l, r) =>
      LeafSetOccurrences(l, s);
      LeafSetOccurrences(r, s);
  }

  /** A tree in which no symbol occurs twice is Distinct. */
  lemma {:induction false} DistinctOfOccurrences(t: Node)
    requires forall s :: Occurrences(t, s) <= 1
    ensures Distinct(t)
  {
    match t
    case Leaf(_, _) =>
    case Internal(_, l, r) =>
      forall s ensures Occurrences(l, s) <= 1 && Occurrences(r, s) <= 1 {
        assert Occurrences(t, s) == Occurrences(l, s) + Occurrences(r, s);
      }
      DistinctOfOccurrences(l);
      DistinctOfOccurrences(r);
      forall s | s in LeafSet(l) ensures s !in LeafSet(r) {
        LeafSetOccurrences(l, s);
        LeafSetOccurrences(r, s);
        assert Occurrences(t, s) == Occurrences(l, s) + Occurrences(r, s);
      }
  }

  /** The path from the root of t to the leftmost leaf with symbol s. */
  function PathTo(t: Node, s: Byte): seq<bool>
    requires s in LeafSet(t)
  {
    match t
    case Leaf(_, _) => []
    case Internal(_, l, r) => if s in LeafSet(l) then [false] + PathTo(l, s) else [true] + PathTo(r, s)
  }

  /** PathTo leads to s. */
  lemma {:induction false} PathToLeads(t: Node, s: Byte)
    requires s in LeafSet(t)
    ensures LeadsTo(t, PathTo(t, s), s)
  {
    match t
    case Leaf(_, _) =>
    case Internal(_, l, r) =>
      var c := s !in LeafSet(l);
      var q := PathTo(if c then r else l, s);
      PathToLeads(if c then r else l, s);
      assert PathTo(t, s) == [c] + q;
      assert ([c] + q)[1..] == q;
  }

  /** Building from code leaves the entries of symbols outside t as they were. */
  lemma {:induction false} BuildTableKeeps(table: map<Byte, seq<bool>>, t: Node, code: seq<bool>, s: Byte)
    requires s in table && s !in LeafSet(t)
    ensures BuildTable(table, t, code)[s] == table[s]
    decreases t
  {
    match t
    case Leaf(_, _) =>
    case Internal(_, l, r) =>
      BuildTableKeeps(table, l, code + [false], s);
      BuildTableKeeps(BuildTable(table, l, code + [false]), r, code + [true], s);
  }

  /**
   * Building from code: for a tree without repeated symbols, the entry of
   * each leaf symbol is code followed by the path to its leaf.
   */
  lemma {:induction false} BuildTableEntries(table: map<Byte, seq<bool>>, t: Node, code: seq<bool>, s: Byte)
    requires Distinct(t) && s in LeafSet(t)
    ensures BuildTable(table, t, code)[s] == code + PathTo(t, s)
    decreases t
  {
    match t
    case Leaf(sym, _) =>
      assert code + [] == code;
    case Internal(_, l, r) =>
      var mid := BuildTable(table, l, code + [false]);
      assert BuildTable(table, t, code) == BuildTable(mid, r, code + [true]);
      var left := s in LeafSet(l);
      var q := PathTo(if left then l else r, s);
      assert PathTo(t, s) == [!left] + q;
      assert BuildTable(mid, r, code + [true])[s] == code + [!left] + q by {
        if left {
          BuildTableEntries(table, l, code + [false], s);
          BuildTableKeeps(mid, r, code + [true], s);
        } else {
          BuildTableEntries(mid, r, code + [true], s);
        }
      }
      Regroup3(code, [!left], q);
  }

  /** A path leads to one leaf only, and that leaf belongs to the tree. */
  lemma {:induction false} LeadsToLeaf(t: Node, p: seq<bool>, s: Byte)
    requires LeadsTo(t, p, s)
    ensures s in LeafSet(t)
    decreases |p|
  {
    match t
    case Leaf(_, _) =>
    case Internal(_, l, r) =>
      LeadsToLeaf(if p[0] then r else l, p[1..], s);
  }

  /**
   * Paths to leaves are prefix-free: when the path to one leaf begins with
   * the path to another, the two paths and the two symbols are the same.
   */
  lemma {:induction false} LeadsToPrefixFree(t: Node, p: seq<bool>, s: Byte, q: seq<bool>, u: Byte)
    requires LeadsTo(t, p, s) && LeadsTo(t, q, u) && |p| <= |q| && q[..|p|] == p
    ensures p == q && s == u
    decreases |p|
  {
    match t
    case Leaf(_, _) =>
    case Internal(_, l, r) =>
      assert q[0] == p[0];
      assert q[1..][..|p| - 1] == p[1..];
      LeadsToPrefixFree(if p[0] then r else l, p[1..], s, q[1..], u);
      assert p == [p[0]] + p[1..] && q == [q[0]] + q[1..];
  }

  /**
   * In a tree without repeated symbols, the path to a leaf is unique: the
   * code recorded for s is exactly the path that leads to s.
   */
  lemma {:induction false} LeadsToUnique(t: Node, p: seq<bool>, q: seq<bool>, s: Byte)
    requires Distinct(t) && LeadsTo(t, p, s) && LeadsTo(t, q, s)
    ensures p == q
    decreases |p|
  {
    match t
    case Leaf(_, _) =>
    case Internal(_, l, r) =>
      if p[0] != q[0] {
        LeadsToLeaf(if p[0] then r else l, p[1..], s);
        LeadsToLeaf(if q[0] then r else l, q[1..], s);
        assert false;
      }
      LeadsToUnique(if p[0] then r else l, p[1..], q[1..], s);
      assert p == [p[0]] + p[1..] && q == [q[0]] + q[1..];
  }

  /** The table of a whole tree, built from the empty table and the empty code as compress does. */
  function CodesOf(t: Node): (r: map<Byte, seq<bool>>)
    ensures r.Keys == LeafSet(t)
  {
    BuildTable(map[], t, [])
  }

  /**
   * One code per leaf symbol: in a tree without repeated symbols, a symbol
   * has the code p exactly when p is the path from the root to its leaf.
   * The code's length is therefore the depth of the leaf.
   */
  lemma CodesArePaths(t: Node, s: Byte, p: seq<bool>)
    requires Distinct(t)
    ensures s in CodesOf(t) && CodesOf(t)[s] == p <==> LeadsTo(t, p, s)
  {
    if s in CodesOf(t) {
      BuildTableEntries(map[], t, [], s);
      PathToLeads(t, s);
      assert CodesOf(t)[s] == PathTo(t, s);
      if LeadsTo(t, p, s) {
        LeadsToUnique(t, p, PathTo(t, s), s);
      }
    } else if LeadsTo(t, p, s) {
      LeadsToLeaf(t, p, s);
    }
  }

  /** No code of the table is a prefix of the code of another symbol. */
  lemma CodesPrefixFree(t: Node, s: Byte, u: Byte)
    requires Distinct(t) && s in CodesOf(t) && u in CodesOf(t) && s != u
    ensures var p, q := CodesOf(t)[s], CodesOf(t)[u]; !(|p| <= |q| && q[..|p|] == p)
  {
    var p, q := CodesOf(t)[s], CodesOf(t)[u];
    CodesArePaths(t, s, p);
    CodesArePaths(t, u, q);
    if |p| <= |q| && q[..|p|] == p {
      LeadsToPrefixFree(t, p, s, q, u);
    }
  }

  /** A trie of one leaf gives its symbol the empty code. */
  lemma SingleLeafCode(s: Byte, f: int)
    ensures CodesOf(Leaf(s, f)) == map[s := []]
  {
  }

  /** A path that leads to s reaches, inside t, a leaf carrying s. */
  lemma {:induction false} LeadsToSub(t: Node, p: seq<bool>, s: Byte)
    requires LeadsTo(t, p, s)
    ensures ValidPath(t, p) && Sub(t, p).Leaf? && Sub(t, p).sym == s
    decreases |p|
  {
    match t
    case Leaf(_, _) =>
    case Internal(_, l, r) =>
      LeadsToSub(if p[0] then r else l, p[1..], s);
  }

  /**
   * In a trie of the greedy shape, a symbol more frequent than another gets
   * a code no longer than the other's: the more frequent symbols get the
   * shorter codes.
   */
  lemma FrequentSymbolShorterCode(t: Node, freq: map<Byte, int>, s: Byte, u: Byte)
    requires Weighted(t) && SiblingOrdered(t) && Greedy(t) && LeavesFrom(t, freq) && Distinct(t)
    requires s in CodesOf(t) && u in CodesOf(t) && s in freq && u in freq && freq[s] < freq[u]
    ensures |CodesOf(t)[u]| <= |CodesOf(t)[s]|
  {
    var p, q := CodesOf(t)[s], CodesOf(t)[u];
    CodesArePaths(t, s, p);
    CodesArePaths(t, u, q);
    LeadsToSub(t, p, s);
    LeadsToSub(t, q, u);
    SubLeaf(t, p, freq);
    SubLeaf(t, q, freq);
    DeeperWhenLighter(t, p, q);
  }
}
