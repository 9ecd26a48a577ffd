/** Huffman code trees, the forests they are merged from, and the code table
    that a depth-first walk of a tree produces. */
module HuffmanTree {

  /** Number of counter slots in a frequency table: one per 8-bit character. */
  const ALPHABET: nat := 256
  /** Edge labels appended to a code while walking down the tree. */
  const LEFT: char := '0'
  const RIGHT: char := '1'

  /** A reference that may be null. */
  datatype Option<T> = None | Some(value: T)

  /** A Huffman tree node. A leaf holds a symbol and its frequency; an
      internal node holds the combined frequency and owns its two children.
      Internal nodes carry no symbol, which the encoder reads as symbol 0. */
  datatype Tree =
    | Leaf(symbol: nat, freq: nat)
    | Node(freq: nat, left: Tree, right: Tree)

  /** Every internal node's frequency is the sum of its children's. */
  predicate WellFormed(t: Tree)
  {
    match t
    case Leaf(_, _) => true
    case Node(f, l, r) => f == l.freq + r.freq && WellFormed(l) && WellFormed(r)
  }

  /** At every internal node the left child is no heavier than the right one:
      the shape Huffman's greedy merge produces, since the first tree removed
      from the queue is a minimum of the forest the second is taken from. */
  predicate LeftLighter(t: Tree)
  {
    match t
    case Leaf(_, _) => true
    case Node(_, l, r) => l.freq <= r.freq && LeftLighter(l) && LeftLighter(r)
  }

  /** The leaves of a tree, as a multiset. */
  function Leaves(t: Tree): (r: multiset<Tree>)
    ensures forall u :: u in r ==> u.Leaf?
    ensures |r| >= 1
  {
    match t
    case Leaf(_, _) => multiset{t}
    case Node(_, l, r) => Leaves(l) + Leaves(r)
  }

  /** The symbols that the encoder treats as real leaves: symbol 0 marks an
      internal node, so a leaf holding it gets no code. */
  function NonZeroSymbols(t: Tree): set<nat>
  {
    set u | u in Leaves(t) && u.Leaf? && u.symbol != 0 :: u.symbol
  }

  /** The non-zero symbols of an internal node are those of its children. */
  lemma NodeSymbols(t: Tree)
    requires t.Node?
    ensures NonZeroSymbols(t) == NonZeroSymbols(t.left) + NonZeroSymbols(t.right)
  {
    assert Leaves(t) == Leaves(t.left) + Leaves(t.right);
  }

  /** No non-zero symbol labels two leaves (or one leaf twice) in a multiset of leaves. */
  ghost predicate DistinctSymbols(m: multiset<Tree>)
  {
    forall a, b :: a in m && b in m && a.Leaf? && b.Leaf? && a.symbol == b.symbol && a.symbol != 0 ==>
      a == b && m[a] == 1
  }

  /** No non-zero symbol occurs at two leaves of the tree, stated along its structure. */
  predicate UniqueSymbols(t: Tree)
  {
    match t
    case Leaf(_, _) => true
    case Node(_, l, r) =>
      NonZeroSymbols(l) !! NonZeroSymbols(r) && UniqueSymbols(l) && UniqueSymbols(r)
  }

  // ---------------------------------------------------------------------------
  // Forests: multisets of trees

  /** Total frequency of a forest. */
  ghost function SumFreq(m: multiset<Tree>): nat
    decreases |m|
  {
    if m == multiset{} then 0
    else
      var t :| t in m;
      t.freq + SumFreq(m - multiset{t})
  }

  /** All leaves of all trees of a forest. */
  ghost function ForestLeaves(m: multiset<Tree>): multiset<Tree>
    decreases |m|
  {
    if m == multiset{} then multiset{}
    else
      var t :| t in m;
      Leaves(t) + ForestLeaves(m - multiset{t})
  }

  /** Taking u and then t out of a forest leaves what taking t and then u does. */
  lemma RemoveTwo(m: multiset<Tree>, t: Tree, u: Tree)
    requires t in m && u in m && t != u
    ensures t in m - multiset{u} && u in m - multiset{t}
    ensures m - multiset{u} - multiset{t} == m - multiset{t} - multiset{u}
  {
  }

  /** SumFreq does not depend on which tree is taken out first. */
  lemma {:induction false} SumFreqRemove(m: multiset<Tree>, t: Tree)
    requires t in m
    ensures SumFreq(m) == t.freq + SumFreq(m - multiset{t})
    decreases |m|
  {
    var u :| u in m && SumFreq(m) == u.freq + SumFreq(m - multiset{u});
    if u != t {
      RemoveTwo(m, t, u);
      var rest := m - multiset{u} - multiset{t};
      SumFreqRemove(m - multiset{u}, t);
      SumFreqRemove(m - multiset{t}, u);
      assert SumFreq(m - multiset{u}) == t.freq + SumFreq(rest);
      assert SumFreq(m - multiset{t}) == u.freq + SumFreq(rest);
    }
  }

  /** ForestLeaves does not depend on which tree is taken out first. */
  lemma {:induction false} ForestLeavesRemove(m: multiset<Tree>, t: Tree)
    requires t in m
    ensures ForestLeaves(m) == Leaves(t) + ForestLeaves(m - multiset{t})
    decreases |m|
  {
    var u :| u in m && ForestLeaves(m) == Leaves(u) + ForestLeaves(m - multiset{u});
    if u != t {
      RemoveTwo(m, t, u);
      var rest := m - multiset{u} - multiset{t};
      ForestLeavesRemove(m - multiset{u}, t);
      ForestLeavesRemove(m - multiset{t}, u);
      assert ForestLeaves(m - multiset{u}) == Leaves(t) + ForestLeaves(rest);
      assert ForestLeaves(m - multiset{t}) == Leaves(u) + ForestLeaves(rest);
      assert Leaves(u) + (Leaves(t) + ForestLeaves(rest)) == Leaves(t) + (Leaves(u) + ForestLeaves(rest));
    }
  }

  /** Adding a tree to a forest adds its frequency to the total. */
  lemma SumFreqAdd(m: multiset<Tree>, t: Tree)
    ensures SumFreq(m + multiset{t}) == SumFreq(m) + t.freq
  {
    SumFreqRemove(m + multiset{t}, t);
    assert m + multiset{t} - multiset{t} == m;
  }

  /** Adding a tree to a forest adds its leaves to the forest's leaves. */
  lemma ForestLeavesAdd(m: multiset<Tree>, t: Tree)
    ensures ForestLeaves(m + multiset{t}) == ForestLeaves(m) + Leaves(t)
  {
    ForestLeavesRemove(m + multiset{t}, t);
    assert m + multiset{t} - multiset{t} == m;
  }

  /** A forest of one tree has that tree's frequency and leaves. */
  lemma SingletonForest(t: Tree)
    ensures SumFreq(multiset{t}) == t.freq
    ensures ForestLeaves(multiset{t}) == Leaves(t)
  {
    SumFreqRemove(multiset{t}, t);
    ForestLeavesRemove(multiset{t}, t);
    assert multiset{t} - multiset{t} == multiset{};
  }

  /** A forest made of leaves only is its own multiset of leaves. */
  lemma {:induction false} ForestOfLeaves(m: multiset<Tree>)
    requires forall u :: u in m ==> u.Leaf?
    ensures ForestLeaves(m) == m
    decreases |m|
  {
    if m != multiset{} {
      var t :| t in m;
      ForestLeavesRemove(m, t);
      ForestOfLeaves(m - multiset{t});
      assert multiset{t} + (m - multiset{t}) == m;
    }
  }

  /** The frequency of a well-formed tree is the total frequency of its leaves. */
  lemma {:induction false} RootFreqIsLeafTotal(t: Tree)
    requires WellFormed(t)
    ensures t.freq == SumFreq(Leaves(t))
  {
    match t
    case Leaf(_, _) =>
      SumFreqRemove(multiset{t}, t);
      assert multiset{t} - multiset{t} == multiset{};
    case Node(_, l, r) =>
      RootFreqIsLeafTotal(l);
      RootFreqIsLeafTotal(r);
      SumFreqUnion(Leaves(l), Leaves(r));
  }

  /** Total frequency is additive over the union of forests. */
  lemma {:induction false} SumFreqUnion(a: multiset<Tree>, b: multiset<Tree>)
    ensures SumFreq(a + b) == SumFreq(a) + SumFreq(b)
    decreases |b|
  {
    if b == multiset{} {
      assert a + b == a;
    } else {
      var t :| t in b;
      SumFreqRemove(a + b, t);
      SumFreqRemove(b, t);
      assert a + b - multiset{t} == a + (b - multiset{t});
      SumFreqUnion(a, b - multiset{t});
    }
  }

  /** Leaves of two forests with distinct symbols keep them distinct on either side,
      and the two sides share no non-zero symbol. */
  lemma SplitDistinctSymbols(a: multiset<Tree>, b: multiset<Tree>)
    requires DistinctSymbols(a + b)
    ensures DistinctSymbols(a) && DistinctSymbols(b)
    ensures forall x, y :: x in a && y in b && x.Leaf? && y.Leaf? && x.symbol != 0 ==> x.symbol != y.symbol
  {
    forall x, y | x in a && y in b && x.Leaf? && y.Leaf? && x.symbol != 0
      ensures x.symbol != y.symbol
    {
      assert x in a + b && y in a + b;
    }
  }

  /** A tree whose leaves carry pairwise distinct non-zero symbols has them
      distinct in every subtree too. */
  lemma {:induction false} DistinctLeavesUnique(t: Tree)
    requires DistinctSymbols(Leaves(t))
    ensures UniqueSymbols(t)
  {
    match t
    case Leaf(_, _) =>
    case Node(_, l, r) =>
      SplitDistinctSymbols(Leaves(l), Leaves(r));
      DistinctLeavesUnique(l);
      DistinctLeavesUnique(r);
  }

  // ---------------------------------------------------------------------------
  // Codes

  /** The table the recursive walk writes, starting with the accumulated code
      `code`: a left edge appends LEFT, a right edge RIGHT; a leaf with a non-zero
      symbol records the code under its symbol; a leaf with symbol 0 is taken for
      an internal node whose children are null and records nothing. The right
      subtree is walked after the left one, so its entries win on a clash. */
  function Codes(t: Tree, code: string): (r: map<nat, string>)
    ensures forall s :: s in r ==> code <= r[s]
    ensures r.Keys == NonZeroSymbols(t)
  {
    match t
    case Leaf(s, _) => if s != 0 then map[s := code] else map[]
    case Node(_, l, r) =>
      assert Leaves(t) == Leaves(l) + Leaves(r);
      Codes(l, code + [LEFT]) + Codes(r, code + [RIGHT])
  }

  /** The code table of a whole tree: the walk starts from the empty code. A
      lone leaf root is given the empty code; below an internal root every code
      has at least one bit. */
  function CodeTable(root: Tree): (r: map<nat, string>)
    ensures r.Keys == NonZeroSymbols(root)
    ensures root.Leaf? && root.symbol != 0 ==> r == map[root.symbol := ""]
    ensures root.Node? ==> forall s :: s in r ==> |r[s]| >= 1
  {
    Codes(root, "")
  }

  /** The subtree reached from t by following the LEFT/RIGHT labels of path,
      if the path stays inside the tree. */
  function Subtree(t: Tree, path: string): Option<Tree>
    decreases |path|
  {
    if path == [] then Some(t)
    else
      match t
      case Leaf(_, _) => None
      case Node(_, l, r) =>
        if path[0] == LEFT then Subtree(l, path[1..])
        else if path[0] == RIGHT then Subtree(r, path[1..])
        else None
  }

  /** path leads from the root of t to a leaf labelled s. */
  ghost predicate IsLeafPath(t: Tree, path: string, s: nat)
  {
    Subtree(t, path).Some? && Subtree(t, path).value.Leaf? && Subtree(t, path).value.symbol == s
  }

  /** A code extending `code` by the edge label `c` continues, past `code`,
      with `c` and then the rest of the code. */
  lemma EdgeStep(v: string, code: string, c: char)
    requires code + [c] <= v
    ensures |code| < |v| && v[|code|..][0] == c && v[|code|..][1..] == v[|code + [c]|..]
  {
    assert v[|code|] == (code + [c])[|code|];
  }

  /** Every code the walk records is the code it started with followed by the
      root-to-leaf path of a leaf carrying that symbol. */
  lemma {:induction false} CodesFollowLeafPaths(t: Tree, code: string, s: nat)
    requires s in Codes(t, code)
    ensures IsLeafPath(t, Codes(t, code)[s][|code|..], s)
  {
    match t
    case Leaf(_, _) =>
      assert Codes(t, code)[s][|code|..] == [];
    case Node(_, l, r) =>
      var v := Codes(t, code)[s];
      var onRight := s in Codes(r, code + [RIGHT]);
      var c := if onRight then RIGHT else LEFT;
      var child := if onRight then r else l;
      assert v == Codes(child, code + [c])[s];
      CodesFollowLeafPaths(child, code + [c], s);
      EdgeStep(v, code, c);
  }

  /** The leaf at the end of a path is one of the tree's leaves. */
  lemma {:induction false} LeafPathInLeaves(t: Tree, path: string)
    requires Subtree(t, path).Some? && Subtree(t, path).value.Leaf?
    ensures Subtree(t, path).value in Leaves(t)
    decreases |path|
  {
    if path != [] {
      match t
      case Node(_, l, r) =>
        if path[0] == LEFT {
          LeafPathInLeaves(l, path[1..]);
        } else {
          LeafPathInLeaves(r, path[1..]);
        }
    }
  }

  /** A non-zero symbol found at the end of a path is one the walk records. */
  lemma LeafPathSymbol(t: Tree, path: string, s: nat)
    requires IsLeafPath(t, path, s) && s != 0
    ensures s in NonZeroSymbols(t)
  {
    LeafPathInLeaves(t, path);
  }

  /** When symbols are unique, a non-zero symbol is reached by one path only. */
  lemma {:induction false} UniqueLeafPath(t: Tree, p: string, q: string, s: nat)
    requires UniqueSymbols(t) && s != 0 && IsLeafPath(t, p, s) && IsLeafPath(t, q, s)
    ensures p == q
    decreases |p|
  {
    if p == [] || q == [] {
      assert t.Leaf?;
    } else {
      var l, r := t.left, t.right;
      if p[0] == q[0] {
        if p[0] == LEFT {
          UniqueLeafPath(l, p[1..], q[1..], s);
        } else {
          UniqueLeafPath(r, p[1..], q[1..], s);
        }
        assert p == [p[0]] + p[1..] && q == [q[0]] + q[1..];
      } else if p[0] == LEFT {
        LeafPathSymbol(l, p[1..], s);
        LeafPathSymbol(r, q[1..], s);
      } else {
        LeafPathSymbol(r, p[1..], s);
        LeafPathSymbol(l, q[1..], s);
      }
    }
  }

  /** Codes are exactly the root-to-leaf paths: every entry of the table is the
      path to a leaf with that symbol, and when symbols are unique every
      non-zero leaf's path is its symbol's entry. */
  lemma CodeTableIsLeafPaths(t: Tree)
    ensures forall s :: s in CodeTable(t) ==> IsLeafPath(t, CodeTable(t)[s], s)
    ensures UniqueSymbols(t) ==>
      forall path, s :: s != 0 && IsLeafPath(t, path, s) ==> s in CodeTable(t) && CodeTable(t)[s] == path
  {
    forall s | s in CodeTable(t)
      ensures IsLeafPath(t, CodeTable(t)[s], s)
    {
      CodesFollowLeafPaths(t, "", s);
      assert CodeTable(t)[s][0..] == CodeTable(t)[s];
    }
    if UniqueSymbols(t) {
      forall path, s | s != 0 && IsLeafPath(t, path, s)
        ensures s in CodeTable(t) && CodeTable(t)[s] == path
      {
        LeafPathSymbol(t, path, s);
        UniqueLeafPath(t, path, CodeTable(t)[s], s);
      }
    }
  }

  /** No symbol's code is a prefix of another symbol's code. */
  ghost predicate PrefixFree(table: map<nat, string>)
  {
    forall a, b :: a in table && b in table && a != b ==> !(table[a] <= table[b])
  }

  /** Two strings that extend a common prefix by different characters are not
      prefixes of one another. */
  lemma Diverging(x: string, y: string, p: string, cx: char, cy: char)
    requires p + [cx] <= x && p + [cy] <= y && cx != cy
    ensures !(x <= y)
  {
    assert x[|p|] == cx && y[|p|] == cy;
  }

  /** The walk produces a prefix-free table from any starting code. */
  lemma {:induction false} CodesPrefixFree(t: Tree, code: string)
    ensures PrefixFree(Codes(t, code))
  {
    match t
    case Leaf(_, _) =>
    case Node(_, l, r) =>
      var lt, rt := Codes(l, code + [LEFT]), Codes(r, code + [RIGHT]);
      CodesPrefixFree(l, code + [LEFT]);
      CodesPrefixFree(r, code + [RIGHT]);
      var table := lt + rt;
      forall a, b | a in table && b in table && a != b
        ensures !(table[a] <= table[b])
      {
        if a in rt && b !in rt {
          Diverging(table[a], table[b], code, RIGHT, LEFT);
        } else if a !in rt && b in rt {
          Diverging(table[a], table[b], code, LEFT, RIGHT);
        }
      }
  }

  /** The code table of a tree is prefix-free. */
  lemma CodeTablePrefixFree(t: Tree)
    ensures PrefixFree(CodeTable(t))
  {
    CodesPrefixFree(t, "");
  }
}
