/** The min-heap the encoder keeps its forest in. Its implementation is not
    part of this model: the heap is described by the contract the encoder
    relies on, over the multiset of trees it holds. */
module PriorityQueue {
  import opened HuffmanTree

  /** t is an element of m of least frequency. */
  predicate IsMin(t: Tree, m: multiset<Tree>)
  {
    t in m && forall u :: u in m ==> t.freq <= u.freq
  }

  /** Every non-empty forest has an element of least frequency. */
  lemma {:induction false} MinExists(m: multiset<Tree>)
    requires m != multiset{}
    ensures exists t :: IsMin(t, m)
    decreases |m|
  {
    var x :| x in m;
    var rest := m - multiset{x};
    if rest == multiset{} {
      assert m == multiset{x} by {
        assert m == rest + multiset{x};
      }
      assert forall u :: u in m ==> u == x;
      assert IsMin(x, m);
    } else {
      MinExists(rest);
      var y :| IsMin(y, rest);
      if x.freq <= y.freq {
        assert IsMin(x, m);
      } else {
        assert IsMin(y, m);
      }
    }
  }

  /** A forest of one tree holds just that tree. */
  lemma SingleTree(m: multiset<Tree>, t: Tree)
    requires |m| == 1 && t in m
    ensures m == multiset{t}
  {
    var rest := m - multiset{t};
    assert m == rest + multiset{t};
  }

  /** A priority queue of Huffman trees ordered by frequency. */
  class MinHeap {
    var contents: multiset<Tree>

    /** An empty heap. */
    constructor ()
      ensures contents == multiset{}
    {
      contents := multiset{};
    }

    /** Number of trees in the heap. */
    method Size() returns (n: nat)
      ensures n == |contents|
    {
      n := |contents|;
    }

    /** Adds a tree. */
    method Insert(t: Tree)
      modifies this
      ensures contents == old(contents) + multiset{t}
    {
      contents := contents + multiset{t};
    }

    /** A tree of least frequency, left in the heap. */
    method GetMin() returns (t: Tree)
      requires contents != multiset{}
      ensures IsMin(t, contents)
    {
      MinExists(contents);
      t :| IsMin(t, contents);
    }

    /** Removes and returns a tree of least frequency. */
    method RemoveMin() returns (t: Tree)
      requires contents != multiset{}
      modifies this
      ensures IsMin(t, old(contents))
      ensures contents == old(contents) - multiset{t}
    {
      MinExists(contents);
      t :| IsMin(t, contents);
      contents := contents - multiset{t};
    }
  }
}
