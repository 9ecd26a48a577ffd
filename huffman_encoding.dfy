/** The Huffman encoding pipeline: count the frequency of every character of a
    message, turn each occurring character into a one-leaf tree in a min-heap,
    merge the two lightest trees until one is left, read the code of every
    symbol off that tree, and add up the length of the encoded message. */
module HuffmanEncoding {
  import opened HuffmanTree
  import opened PriorityQueue

  /** Number of values of a 16-bit character: casting a table index to a
      character keeps it modulo this. */
  const CHAR_RANGE: nat := 0x1_0000
  /** Bits per character in the uncompressed message. */
  const BITS_PER_BYTE: nat := 8

  // ---------------------------------------------------------------------------
  // Frequencies

  /** Number of occurrences of character c in s. */
  function Occurrences(s: string, c: nat): nat
  {
    if s == [] then 0
    else Occurrences(s[..|s| - 1], c) + (if s[|s| - 1] as nat == c then 1 else 0)
  }

  /** Every character of s has a slot in the frequency table. */
  predicate InAlphabet(s: string)
  {
    forall i :: 0 <= i < |s| ==> s[i] as nat < ALPHABET
  }

  /** Character c occurs somewhere in s. */
  predicate Occurs(s: string, c: nat)
  {
    exists i :: 0 <= i < |s| && s[i] as nat == c
  }

  /** A character is counted exactly when it occurs. */
  lemma {:induction false} OccurrencesPositive(s: string, c: nat)
    ensures Occurrences(s, c) > 0 <==> Occurs(s, c)
  {
    if s != [] {
      var p := s[..|s| - 1];
      OccurrencesPositive(p, c);
      if Occurs(p, c) {
        var i :| 0 <= i < |p| && p[i] as nat == c;
        assert s[i] == p[i];
      }
      if Occurs(s, c) && s[|s| - 1] as nat != c {
        var i :| 0 <= i < |s| && s[i] as nat == c;
        assert p[i] == s[i];
      }
    }
  }

  /** The frequency table of s: slot c holds the number of occurrences of c. */
  function Histogram(s: string): seq<int>
  {
    seq(ALPHABET, c requires 0 <= c => Occurrences(s, c))
  }

  /** Sum of a sequence of integers. */
  function Sum(xs: seq<int>): int
  {
    if xs == [] then 0 else Sum(xs[..|xs| - 1]) + xs[|xs| - 1]
  }

  /** Adding d to one slot adds d to the sum. */
  lemma {:induction false} SumUpdate(xs: seq<int>, i: nat, d: int)
    requires i < |xs|
    ensures Sum(xs[i := xs[i] + d]) == Sum(xs) + d
  {
    var ys := xs[i := xs[i] + d];
    var n := |xs| - 1;
    if i < n {
      assert ys[..n] == xs[..n][i := xs[i] + d];
      SumUpdate(xs[..n], i, d);
    } else {
      assert ys[..n] == xs[..n];
    }
  }

  /** Reading one more character increments exactly its slot. */
  lemma HistogramStep(s: string, x: char)
    requires x as nat < ALPHABET
    ensures Histogram(s + [x]) == Histogram(s)[x as nat := Histogram(s)[x as nat] + 1]
  {
    assert (s + [x])[..|s|] == s;
  }

  /** The frequencies of a message add up to its length. */
  lemma {:induction false} HistogramTotal(s: string)
    requires InAlphabet(s)
    ensures Sum(Histogram(s)) == |s|
    ensures forall c :: 0 <= c < ALPHABET ==> Histogram(s)[c] >= 0
  {
    if s == [] {
      var zeros := Histogram(s);
      assert forall n :: 0 <= n <= ALPHABET ==> Sum(zeros[..n]) == 0 by {
        forall n | 0 <= n <= ALPHABET
          ensures Sum(zeros[..n]) == 0
        {
          SumZeros(zeros, n);
        }
      }
      assert zeros[..ALPHABET] == zeros;
    } else {
      var p, x := s[..|s| - 1], s[|s| - 1];
      assert s == p + [x];
      HistogramTotal(p);
      HistogramStep(p, x);
      SumUpdate(Histogram(p), x as nat, 1);
    }
  }

  /** The sum of a prefix of zeros is zero. */
  lemma {:induction false} SumZeros(xs: seq<int>, n: nat)
    requires n <= |xs| && forall i :: 0 <= i < |xs| ==> xs[i] == 0
    ensures Sum(xs[..n]) == 0
  {
    if n > 0 {
      assert xs[..n][..n - 1] == xs[..n - 1];
      SumZeros(xs, n - 1);
    }
  }

  /** countFrequency: a fresh 256-slot table counting each character of the
      message; an absent (null) message leaves every slot zero. */
  method CountFrequency(message: Option<string>) returns (frequencies: array<int>)
    requires message.Some? ==> InAlphabet(message.value)
    ensures fresh(frequencies)
    ensures frequencies[..] == Histogram(if message.Some? then message.value else "")
  {
    frequencies := new int[ALPHABET](_ => 0);
    if message.Some? {
      var s := message.value;
      assert s[..0] == "";
      for i := 0 to |s|
        invariant frequencies[..] == Histogram(s[..i])
      {
        HistogramStep(s[..i], s[i]);
        assert s[..i + 1] == s[..i] + [s[i]];
        frequencies[s[i] as int] := frequencies[s[i] as int] + 1;
      }
      assert s[..|s|] == s;
    }
  }

  // ---------------------------------------------------------------------------
  // The forest of leaves

  /** The leaves the forest builder makes from a frequency table: one leaf per
      slot with a positive count, labelled with the slot index cast to a
      character. */
  function LeafForest(f: seq<int>): multiset<Tree>
  {
    if f == [] then multiset{}
    else
      var c := |f| - 1;
      LeafForest(f[..c]) + (if f[c] > 0 then multiset{Leaf(c % CHAR_RANGE, f[c])} else multiset{})
  }

  /** For a table no longer than the character range, the forest holds exactly
      one leaf Leaf(c, f[c]) per slot c with f[c] > 0, once, and nothing else. */
  lemma {:induction false} LeafForestContents(f: seq<int>)
    requires |f| <= CHAR_RANGE
    ensures forall t :: t in LeafForest(f) ==>
      t.Leaf? && t.symbol < |f| && f[t.symbol] > 0 && t.freq == f[t.symbol] && LeafForest(f)[t] == 1
    ensures forall c :: 0 <= c < |f| && f[c] > 0 ==> Leaf(c, f[c]) in LeafForest(f)
  {
    if f != [] {
      var c := |f| - 1;
      var g := f[..c];
      LeafForestContents(g);
      var rest := LeafForest(g);
      assert c % CHAR_RANGE == c;
      assert forall t :: t in rest ==> t.symbol < c && f[t.symbol] == g[t.symbol];
      if f[c] > 0 {
        assert Leaf(c, f[c]) !in rest;
        assert LeafForest(f) == rest + multiset{Leaf(c, f[c])};
      } else {
        assert LeafForest(f) == rest;
      }
    }
  }

  /** The leaves of the forest carry pairwise distinct symbols. */
  lemma LeafForestDistinct(f: seq<int>)
    requires |f| <= CHAR_RANGE
    ensures DistinctSymbols(LeafForest(f))
    ensures forall t :: t in LeafForest(f) ==> t.Leaf?
  {
    LeafForestContents(f);
  }

  /** The forest's total frequency is the sum of the positive table entries;
      for a table of counts, the sum of the table. */
  lemma {:induction false} LeafForestFreq(f: seq<int>)
    requires forall c :: 0 <= c < |f| ==> f[c] >= 0
    ensures SumFreq(LeafForest(f)) == Sum(f)
  {
    if f != [] {
      var c := |f| - 1;
      LeafForestFreq(f[..c]);
      if f[c] > 0 {
        SumFreqAdd(LeafForest(f[..c]), Leaf(c % CHAR_RANGE, f[c]));
      } else {
        assert LeafForest(f) == LeafForest(f[..c]);
      }
    }
  }

  /** buildForest: a fresh heap holding one leaf per positive table slot. */
  method BuildForest(frequencies: array<int>) returns (forest: MinHeap)
    ensures fresh(forest)
    ensures forest.contents == LeafForest(frequencies[..])
  {
    forest := new MinHeap();
    for asciiCode := 0 to frequencies.Length
      invariant forest.contents == LeafForest(frequencies[..asciiCode])
    {
      assert frequencies[..asciiCode + 1][..asciiCode] == frequencies[..asciiCode];
      if frequencies[asciiCode] > 0 {
        forest.Insert(Leaf(asciiCode % CHAR_RANGE, frequencies[asciiCode]));
      }
    }
    assert frequencies[..frequencies.Length] == frequencies[..];
  }

  // ---------------------------------------------------------------------------
  // Huffman's merge

  /** One round of the merge loop: the two trees it takes out of the forest,
      in the order it takes them. */
  datatype Merge = Merge(first: Tree, second: Tree)

  /** The internal node a round creates: first on the left, second on the right. */
  function Parent(m: Merge): Tree
  {
    Node(m.first.freq + m.second.freq, m.first, m.second)
  }

  /** The forest after a round: the two trees replaced by their parent. */
  function After(forest: multiset<Tree>, m: Merge): multiset<Tree>
  {
    forest - multiset{m.first} - multiset{m.second} + multiset{Parent(m)}
  }

  /** The round took a tree of least frequency out of the forest, then a tree
      of least frequency among those left. */
  predicate Greedy(forest: multiset<Tree>, m: Merge)
  {
    IsMin(m.first, forest) && IsMin(m.second, forest - multiset{m.first})
  }

  /** The forest that the rounds lead to from start. */
  ghost function RunEnd(start: multiset<Tree>, rounds: seq<Merge>): multiset<Tree>
    decreases |rounds|
  {
    if rounds == [] then start
    else After(RunEnd(start, rounds[..|rounds| - 1]), rounds[|rounds| - 1])
  }

  /** rounds is a run of Huffman's algorithm from forest start: every round is
      greedy on the forest the previous rounds left. */
  ghost predicate IsHuffmanRun(start: multiset<Tree>, rounds: seq<Merge>)
    decreases |rounds|
  {
    rounds != [] ==>
      var k := |rounds| - 1;
      IsHuffmanRun(start, rounds[..k]) && Greedy(RunEnd(start, rounds[..k]), rounds[k])
  }

  /** Every tree of the forest is well formed and left-lighter. */
  ghost predicate HuffmanShaped(m: multiset<Tree>)
  {
    forall t :: t in m ==> WellFormed(t) && LeftLighter(t)
  }

  /** A greedy round removes one tree from the forest. */
  lemma MergeShrinks(forest: multiset<Tree>, m: Merge)
    requires Greedy(forest, m)
    ensures |After(forest, m)| == |forest| - 1
  {
  }

  /** A greedy round keeps the total frequency of the forest. */
  lemma MergeKeepsFreq(forest: multiset<Tree>, m: Merge)
    requires Greedy(forest, m)
    ensures SumFreq(After(forest, m)) == SumFreq(forest)
  {
    var b1 := forest - multiset{m.first};
    var b2 := b1 - multiset{m.second};
    SumFreqRemove(forest, m.first);
    SumFreqRemove(b1, m.second);
    SumFreqAdd(b2, Parent(m));
  }

  /** A greedy round keeps the leaves of the forest. */
  lemma MergeKeepsLeaves(forest: multiset<Tree>, m: Merge)
    requires Greedy(forest, m)
    ensures ForestLeaves(After(forest, m)) == ForestLeaves(forest)
  {
    var b1 := forest - multiset{m.first};
    var b2 := b1 - multiset{m.second};
    ForestLeavesRemove(forest, m.first);
    ForestLeavesRemove(b1, m.second);
    ForestLeavesAdd(b2, Parent(m));
    assert Leaves(Parent(m)) == Leaves(m.first) + Leaves(m.second);
  }

  /** A greedy round builds a well-formed, left-lighter parent out of
      well-formed, left-lighter trees. */
  lemma MergeKeepsShape(forest: multiset<Tree>, m: Merge)
    requires Greedy(forest, m) && HuffmanShaped(forest)
    ensures HuffmanShaped(After(forest, m))
  {
    assert m.second in forest;
    assert m.first.freq <= m.second.freq;
    assert WellFormed(Parent(m)) && LeftLighter(Parent(m));
    forall t | t in After(forest, m)
      ensures WellFormed(t) && LeftLighter(t)
    {
      if t != Parent(m) {
        assert t in forest;
      }
    }
  }

  /** Extending a run by a round that is greedy where the run ended gives a run. */
  lemma RunExtend(start: multiset<Tree>, rounds: seq<Merge>, m: Merge)
    requires IsHuffmanRun(start, rounds) && Greedy(RunEnd(start, rounds), m)
    ensures IsHuffmanRun(start, rounds + [m])
    ensures RunEnd(start, rounds + [m]) == After(RunEnd(start, rounds), m)
  {
    assert (rounds + [m])[..|rounds|] == rounds;
  }

  /** One pass of the merge loop, stated over the heap's successive contents:
      taking a least-frequency tree t1, then a least-frequency tree t2 of the
      rest, and inserting their parent extends the run by a greedy round and
      leaves one tree fewer in the forest. */
  lemma RoundStep(start: multiset<Tree>, rounds: seq<Merge>, before: multiset<Tree>,
                  t1: Tree, rest: multiset<Tree>, t2: Tree, pair: multiset<Tree>, after: multiset<Tree>)
    requires IsHuffmanRun(start, rounds) && RunEnd(start, rounds) == before
    requires IsMin(t1, before) && rest == before - multiset{t1}
    requires IsMin(t2, rest) && pair == rest - multiset{t2}
    requires after == pair + multiset{Node(t1.freq + t2.freq, t1, t2)}
    ensures IsHuffmanRun(start, rounds + [Merge(t1, t2)]) && RunEnd(start, rounds + [Merge(t1, t2)]) == after
    ensures |after| == |before| - 1
  {
    var m := Merge(t1, t2);
    assert Greedy(before, m);
    assert After(before, m) == after;
    RunExtend(start, rounds, m);
    MergeShrinks(before, m);
  }

  /** A run of Huffman's algorithm shrinks the forest by one tree per round and
      keeps its total frequency, its leaves and the shape of its trees. */
  lemma {:induction false} RunConserves(start: multiset<Tree>, rounds: seq<Merge>)
    requires IsHuffmanRun(start, rounds)
    ensures |RunEnd(start, rounds)| == |start| - |rounds|
    ensures SumFreq(RunEnd(start, rounds)) == SumFreq(start)
    ensures ForestLeaves(RunEnd(start, rounds)) == ForestLeaves(start)
    ensures HuffmanShaped(start) ==> HuffmanShaped(RunEnd(start, rounds))
    decreases |rounds|
  {
    if rounds != [] {
      var k := |rounds| - 1;
      var before := RunEnd(start, rounds[..k]);
      RunConserves(start, rounds[..k]);
      MergeShrinks(before, rounds[k]);
      MergeKeepsFreq(before, rounds[k]);
      MergeKeepsLeaves(before, rounds[k]);
      if HuffmanShaped(start) {
        MergeKeepsShape(before, rounds[k]);
      }
    }
  }

  /** buildTree: runs the merge loop on the heap until one tree is left and
      returns it; the heap keeps that tree. The ghost rounds record the run. */
  method BuildTree(forest: MinHeap) returns (root: Tree, ghost rounds: seq<Merge>)
    requires forest.contents != multiset{}
    modifies forest
    ensures IsHuffmanRun(old(forest.contents), rounds)
    ensures RunEnd(old(forest.contents), rounds) == multiset{root}
    ensures |rounds| == |old(forest.contents)| - 1
    ensures forest.contents == multiset{root}
  {
    ghost var start := forest.contents;
    rounds := [];
    var size := forest.Size();
    while size > 1
      invariant size == |forest.contents| >= 1
      invariant IsHuffmanRun(start, rounds) && RunEnd(start, rounds) == forest.contents
      invariant |rounds| == |start| - size
      decreases size
    {
      ghost var before := forest.contents;
      var t1 := forest.RemoveMin();
      ghost var rest := forest.contents;
      var t2 := forest.RemoveMin();
      ghost var pair := forest.contents;
      var combined := Node(t1.freq + t2.freq, t1, t2);
      forest.Insert(combined);
      RoundStep(start, rounds, before, t1, rest, t2, pair, forest.contents);
      rounds := rounds + [Merge(t1, t2)];
      size := forest.Size();
    }
    root := forest.GetMin();
    SingleTree(forest.contents, root);
  }

  /** The root of a Huffman run over a forest of leaves is a well-formed,
      left-lighter tree whose leaves are the forest and whose frequency is the
      forest's total. */
  lemma RootOfRun(forest: multiset<Tree>, rounds: seq<Merge>, root: Tree)
    requires IsHuffmanRun(forest, rounds) && RunEnd(forest, rounds) == multiset{root}
    requires forall t :: t in forest ==> t.Leaf?
    ensures WellFormed(root) && LeftLighter(root)
    ensures Leaves(root) == forest
    ensures root.freq == SumFreq(forest)
  {
    assert HuffmanShaped(forest);
    RunConserves(forest, rounds);
    ForestOfLeaves(forest);
    SingletonForest(root);
    assert root in multiset{root};
  }

  // ---------------------------------------------------------------------------
  // The encoding table

  /** The array `codes` after the codes of `table` have been written into it. */
  function Overlay(codes: seq<Option<string>>, table: map<nat, string>): (r: seq<Option<string>>)
    ensures |r| == |codes|
    ensures forall c :: 0 <= c < |r| ==> r[c] == if c in table then Some(table[c]) else codes[c]
  {
    seq(|codes|, c requires 0 <= c < |codes| => if c in table then Some(table[c]) else codes[c])
  }

  /** Every non-zero symbol of t has a slot in an array of length n. */
  predicate SymbolsBelow(t: Tree, n: nat)
  {
    forall s :: s in NonZeroSymbols(t) ==> s < n
  }

  /** createEncodingTable(node, code, codes): walks the tree, writing into
      codes the code of every leaf with a non-zero symbol, continuing from the
      accumulated code; other slots keep their contents. */
  method FillEncodingTable(node: Tree, code: string, codes: array<Option<string>>)
    requires SymbolsBelow(node, codes.Length)
    modifies codes
    ensures codes[..] == Overlay(old(codes[..]), Codes(node, code))
    decreases node
  {
    match node
    case Leaf(s, _) =>
      if s != 0 {
        assert s in NonZeroSymbols(node);
        codes[s] := Some(code);
      }
    case Node(_, l, r) =>
      NodeSymbols(node);
      ghost var start := codes[..];
      FillEncodingTable(l, code + [LEFT], codes);
      FillEncodingTable(r, code + [RIGHT], codes);
      assert codes[..] == Overlay(start, Codes(l, code + [LEFT]) + Codes(r, code + [RIGHT]));
  }

  /** createEncodingTable(node): a fresh 256-slot array holding the code of
      every non-zero leaf symbol of the tree and null everywhere else. */
  method CreateEncodingTable(root: Tree) returns (codes: array<Option<string>>)
    requires SymbolsBelow(root, ALPHABET)
    ensures fresh(codes)
    ensures codes.Length == ALPHABET
    ensures forall c :: 0 <= c < ALPHABET ==>
      codes[c] == if c in CodeTable(root) then Some(CodeTable(root)[c]) else None
  {
    codes := new Option<string>[ALPHABET](_ => None);
    FillEncodingTable(root, "", codes);
  }

  // ---------------------------------------------------------------------------
  // Compression length

  /** Number of bits of a code; a missing code counts for nothing. */
  function CodeLength(code: Option<string>): nat
  {
    if code.Some? then |code.value| else 0
  }

  /** Every character of message has a code in codes. */
  predicate Encodable(message: string, codes: seq<Option<string>>)
  {
    forall i :: 0 <= i < |message| ==> message[i] as nat < |codes| && codes[message[i] as nat].Some?
  }

  /** Length of the encoded message: the code lengths of its characters, added up. */
  function CompressedLength(message: string, codes: seq<Option<string>>): nat
  {
    if message == [] then 0
    else
      var last := message[|message| - 1] as nat;
      CompressedLength(message[..|message| - 1], codes) + (if last < |codes| then CodeLength(codes[last]) else 0)
  }

  /** The same length counted per symbol: frequency of c times the length of
      c's code, summed over the first n symbols. */
  function WeightedLength(message: string, codes: seq<Option<string>>, n: nat): nat
    requires n <= |codes|
  {
    if n == 0 then 0
    else WeightedLength(message, codes, n - 1) + Occurrences(message, n - 1) * CodeLength(codes[n - 1])
  }

  /** One more occurrence of x adds the length of x's code to the weighted sum. */
  lemma {:induction false} WeightedLengthStep(message: string, x: char, codes: seq<Option<string>>, n: nat)
    requires n <= |codes|
    ensures WeightedLength(message + [x], codes, n)
         == WeightedLength(message, codes, n) + (if x as nat < n then CodeLength(codes[x as nat]) else 0)
  {
    assert (message + [x])[..|message|] == message;
    if n > 0 {
      WeightedLengthStep(message, x, codes, n - 1);
    }
  }

  /** The length of the encoded message is the sum over symbols of frequency
      times code length. */
  lemma {:induction false} CompressedIsWeighted(message: string, codes: seq<Option<string>>)
    requires InAlphabet(message) && |codes| == ALPHABET
    ensures CompressedLength(message, codes) == WeightedLength(message, codes, ALPHABET)
  {
    if message == [] {
      ZeroWeight(codes, ALPHABET);
    } else {
      var p, x := message[..|message| - 1], message[|message| - 1];
      assert message == p + [x];
      CompressedIsWeighted(p, codes);
      WeightedLengthStep(p, x, codes, ALPHABET);
    }
  }

  /** The empty message weighs nothing. */
  lemma {:induction false} ZeroWeight(codes: seq<Option<string>>, n: nat)
    requires n <= |codes|
    ensures WeightedLength("", codes, n) == 0
  {
    if n > 0 {
      ZeroWeight(codes, n - 1);
    }
  }

  /** computeCompressionLength: adds up the code length of every character. */
  method ComputeCompressionLength(message: string, codes: array<Option<string>>) returns (compressionLength: int)
    requires Encodable(message, codes[..])
    ensures compressionLength == CompressedLength(message, codes[..])
  {
    compressionLength := 0;
    for i := 0 to |message|
      invariant compressionLength == CompressedLength(message[..i], codes[..])
    {
      assert message[..i + 1][..i] == message[..i];
      compressionLength := compressionLength + |codes[message[i] as int].value|;
    }
    assert message[..|message|] == message;
  }

  /** Length of the message at a fixed eight bits per character, the baseline
      the compressed length is reported against. */
  function UncompressedLength(message: string): nat
  {
    |message| * BITS_PER_BYTE
  }

  // ---------------------------------------------------------------------------
  // The whole pipeline

  /** A multiset whose only element occurs once is that singleton. */
  lemma OnlyElement(m: multiset<Tree>, t: Tree)
    requires forall u :: u in m ==> u == t
    requires m[t] == 1
    ensures m == multiset{t}
  {
    assert forall u :: m[u] == multiset{t}[u];
  }

  /** The tree built from a message's frequencies is well formed and
      left-lighter, its leaves are the leaf forest of the message and it is as
      heavy as the message is long. */
  lemma HuffmanTreeOfMessage(message: string, rounds: seq<Merge>, root: Tree)
    requires InAlphabet(message)
    requires IsHuffmanRun(LeafForest(Histogram(message)), rounds)
    requires RunEnd(LeafForest(Histogram(message)), rounds) == multiset{root}
    ensures WellFormed(root) && LeftLighter(root) && root.freq == |message|
    ensures Leaves(root) == LeafForest(Histogram(message))
  {
    var h := Histogram(message);
    LeafForestContents(h);
    RootOfRun(LeafForest(h), rounds, root);
    HistogramTotal(message);
    LeafForestFreq(h);
  }

  /** A tree whose leaves are the leaf forest of a message has one leaf per
      occurring character, carrying that character's count, no symbol twice,
      and a leaf with a non-zero symbol exactly for each occurring character. */
  lemma LeavesOfMessage(message: string, root: Tree)
    requires forall i :: 0 <= i < |message| ==> 0 < message[i] as int < ALPHABET
    requires Leaves(root) == LeafForest(Histogram(message))
    ensures forall u :: u in Leaves(root) ==> u == Leaf(u.symbol, Occurrences(message, u.symbol))
    ensures UniqueSymbols(root)
    ensures forall c: nat :: c in NonZeroSymbols(root) <==> c < ALPHABET && Occurs(message, c)
  {
    var h := Histogram(message);
    LeafForestContents(h);
    LeafForestDistinct(h);
    DistinctLeavesUnique(root);
    forall c: nat
      ensures c in NonZeroSymbols(root) <==> c < ALPHABET && Occurs(message, c)
    {
      OccurrencesPositive(message, c);
      if c < ALPHABET && Occurs(message, c) {
        var i :| 0 <= i < |message| && message[i] as nat == c;
        assert Leaf(c, h[c]) in Leaves(root);
      }
      if c in NonZeroSymbols(root) {
        var u :| u in Leaves(root) && u.Leaf? && u.symbol != 0 && u.symbol == c;
        assert h[c] > 0;
      }
    }
  }

  /** A message made of one repeated character yields a lone leaf as the root,
      and a message with two different characters an internal root. */
  lemma RootShape(message: string, root: Tree)
    requires forall i :: 0 <= i < |message| ==> 0 < message[i] as int < ALPHABET
    requires |message| > 0
    requires Leaves(root) == LeafForest(Histogram(message))
    requires forall u :: u in Leaves(root) ==> u == Leaf(u.symbol, Occurrences(message, u.symbol))
    ensures (forall i :: 0 <= i < |message| ==> message[i] == message[0]) <==> root.Leaf?
  {
    var h := Histogram(message);
    LeafForestContents(h);
    var x := message[0] as nat;
    if forall i :: 0 <= i < |message| ==> message[i] == message[0] {
      forall u | u in Leaves(root)
        ensures u == Leaf(x, h[x])
      {
        OccurrencesPositive(message, u.symbol);
      }
      OccurrencesPositive(message, x);
      assert Leaf(x, h[x]) in Leaves(root);
      OnlyElement(Leaves(root), Leaf(x, h[x]));
    } else {
      var j :| 0 <= j < |message| && message[j] != message[0];
      var y := message[j] as nat;
      OccurrencesPositive(message, x);
      OccurrencesPositive(message, y);
      assert Leaf(x, h[x]) in Leaves(root) && Leaf(y, h[y]) in Leaves(root);
    }
  }

  /** What the code table of a message's tree promises, laid out over the
      alphabet: exactly the occurring characters get a code, each code is the
      path to that character's leaf and every such path is its character's
      code, no code is a prefix of another, a message of one repeated
      character gets the empty code and any other message only non-empty
      codes. */
  ghost predicate CodeFacts(message: string, root: Tree, codes: seq<Option<string>>)
  {
    && |codes| == ALPHABET
    && |message| > 0
    && (forall i :: 0 <= i < |message| ==> 0 < message[i] as int < ALPHABET)
    && (forall c :: 0 <= c < ALPHABET ==> (codes[c].Some? <==> Occurs(message, c)))
    && (forall c :: 0 <= c < ALPHABET && codes[c].Some? ==> IsLeafPath(root, codes[c].value, c))
    && (forall c: nat, path :: c != 0 && IsLeafPath(root, path, c) ==> c < ALPHABET && codes[c] == Some(path))
    && (forall a, b :: 0 <= a < ALPHABET && 0 <= b < ALPHABET && a != b && codes[a].Some? && codes[b].Some? ==>
          !(codes[a].value <= codes[b].value))
    && ((forall i :: 0 <= i < |message| ==> message[i] == message[0]) ==> codes[message[0] as int] == Some(""))
    && ((exists i :: 0 <= i < |message| && message[i] != message[0]) ==>
          forall c :: 0 <= c < ALPHABET && codes[c].Some? ==> |codes[c].value| >= 1)
  }

  /** The code table of any tree whose leaves are a message's leaf forest
      keeps the code facts. */
  lemma CodesOfMessage(message: string, root: Tree, codes: seq<Option<string>>)
    requires forall i :: 0 <= i < |message| ==> 0 < message[i] as int < ALPHABET
    requires |message| > 0
    requires Leaves(root) == LeafForest(Histogram(message))
    requires |codes| == ALPHABET
    requires forall c :: 0 <= c < ALPHABET ==>
      codes[c] == if c in CodeTable(root) then Some(CodeTable(root)[c]) else None
    ensures CodeFacts(message, root, codes)
  {
    LeavesOfMessage(message, root);
    CodeTableIsLeafPaths(root);
    CodeTablePrefixFree(root);
    RootShape(message, root);
    forall c: nat, path | c != 0 && IsLeafPath(root, path, c)
      ensures c < ALPHABET && codes[c] == Some(path)
    {
      LeafPathSymbol(root, path, c);
    }
  }

  /** The first four steps of encode: count, build the forest, merge it into
      a tree (the ghost root) by a greedy run (the ghost rounds) over the
      message's leaf forest, and read the code table off that tree, which
      keeps the code facts. */
  method BuildCodes(message: string) returns (codes: array<Option<string>>, ghost root: Tree, ghost rounds: seq<Merge>)
    requires message != ""
    requires forall i :: 0 <= i < |message| ==> 0 < message[i] as int < ALPHABET
    ensures codes.Length == ALPHABET
    ensures WellFormed(root) && LeftLighter(root) && root.freq == |message|
    ensures IsHuffmanRun(LeafForest(Histogram(message)), rounds)
    ensures RunEnd(LeafForest(Histogram(message)), rounds) == multiset{root}
    ensures forall u :: u in Leaves(root) ==> u == Leaf(u.symbol, Occurrences(message, u.symbol))
    ensures CodeFacts(message, root, codes[..])
  {
    var frequencies := CountFrequency(Some(message));
    var forest := BuildForest(frequencies);
    assert forest.contents != multiset{} by {
      LeafForestContents(frequencies[..]);
      OccurrencesPositive(message, message[0] as nat);
      assert Leaf(message[0] as nat, frequencies[message[0] as nat]) in forest.contents;
    }
    var r;
    r, rounds := BuildTree(forest);
    root := r;
    HuffmanTreeOfMessage(message, rounds, root);
    LeavesOfMessage(message, root);
    codes := CreateEncodingTable(r);
    CodesOfMessage(message, root, codes[..]);
  }

  /** encode: the pipeline on one message. Instead of printing, it returns what
      the report shows: the code table, the compressed length and the length at
      eight bits per character; the ghost root is the Huffman tree it built,
      at the end of the greedy run recorded in the ghost rounds. It keeps
      every fact about the tree and the codes that BuildCodes states, and the
      compressed length is the sum over characters of count times code
      length. */
  method Encode(message: string) returns (codes: array<Option<string>>, compressionLength: int, asciiLength: int, ghost root: Tree, ghost rounds: seq<Merge>)
    requires message != ""
    requires forall i :: 0 <= i < |message| ==> 0 < message[i] as int < ALPHABET
    ensures codes.Length == ALPHABET
    ensures WellFormed(root) && LeftLighter(root) && root.freq == |message|
    ensures IsHuffmanRun(LeafForest(Histogram(message)), rounds)
    ensures RunEnd(LeafForest(Histogram(message)), rounds) == multiset{root}
    ensures forall u :: u in Leaves(root) ==> u == Leaf(u.symbol, Occurrences(message, u.symbol))
    ensures CodeFacts(message, root, codes[..])
    ensures compressionLength == WeightedLength(message, codes[..], ALPHABET)
    ensures asciiLength == |message| * BITS_PER_BYTE
  {
    codes, root, rounds := BuildCodes(message);
    assert Encodable(message, codes[..]) by {
      forall i | 0 <= i < |message|
        ensures message[i] as nat < codes.Length && codes[message[i] as nat].Some?
      {
        assert Occurs(message, message[i] as nat);
      }
    }
    compressionLength := ComputeCompressionLength(message, codes);
    CompressedIsWeighted(message, codes[..]);
    asciiLength := UncompressedLength(message);
  }
}
