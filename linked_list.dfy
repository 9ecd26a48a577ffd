/** A singly linked list of strings: appending at the tail, the slow/fast
    pointer search for the middle node, in-place reversal by relinking the
    `next` pointers, and the concatenation of the node data.
    Each list carries a ghost sequence `nodes` naming the nodes reachable from
    `head`, in order; the list is well formed when that sequence is exactly
    the chain of `next` pointers, ends in null and repeats no node. */
module LinkedList {

  /** The sequence reversed. */
  function Reverse<T>(s: seq<T>): (r: seq<T>)
    ensures |r| == |s|
  {
    if s == [] then [] else Reverse(s[1..]) + [s[0]]
  }

  /** Element i of the reversed sequence is element n - 1 - i of the original. */
  lemma {:induction false} ReverseAt<T>(s: seq<T>)
    ensures forall i :: 0 <= i < |s| ==> Reverse(s)[i] == s[|s| - 1 - i]
  {
    if s != [] {
      ReverseAt(s[1..]);
    }
  }

  /** The strings joined end to end. */
  function Concat(xs: seq<string>): string
  {
    if xs == [] then "" else Concat(xs[..|xs| - 1]) + xs[|xs| - 1]
  }

  /** One element of the list. */
  class Node {
    const data: string
    var next: Node?

    /** A node holding `data`, not yet linked to a successor. */
    constructor (data: string)
      ensures this.data == data && next == null
    {
      this.data := data;
      next := null;
    }
  }

  /** The data of the nodes, in order. */
  function DataOf(ns: seq<Node>): (r: seq<string>)
    ensures |r| == |ns|
    ensures forall i :: 0 <= i < |ns| ==> r[i] == ns[i].data
  {
    if ns == [] then [] else [ns[0].data] + DataOf(ns[1..])
  }

  /** The nodes of `ns` are pairwise distinct objects. */
  ghost predicate Distinct(ns: seq<Node>)
  {
    forall i, j :: 0 <= i < j < |ns| ==> ns[i] != ns[j]
  }

  /** Where node j of `ns` points once the first i nodes have been turned
      around: back to its predecessor when j < i, else on to its successor
      (null past either end). With i = 0 this is the original chain. */
  function NextAfter(ns: seq<Node>, i: int, j: int): Node?
    requires 0 <= j < |ns|
  {
    if j < i then (if j == 0 then null else ns[j - 1])
    else if j + 1 < |ns| then ns[j + 1] else null
  }

  /** `ns` is a null-terminated chain of next pointers starting at `first`. */
  ghost predicate Chain(first: Node?, ns: seq<Node>)
    reads ns
  {
    && (if ns == [] then first == null else first == ns[0])
    && (forall j {:trigger ns[j].next} :: 0 <= j < |ns| ==> ns[j].next == NextAfter(ns, 0, j))
  }

  /** Nodes whose next pointers each lead back to their predecessor, the
      first node ending in null, form a chain from the last node through
      the reversed sequence. */
  lemma BackwardChain(ns: seq<Node>)
    requires Distinct(ns)
    requires forall j {:trigger ns[j].next} :: 0 <= j < |ns| ==> ns[j].next == NextAfter(ns, |ns|, j)
    ensures Chain(if ns == [] then null else ns[|ns| - 1], Reverse(ns))
    ensures Distinct(Reverse(ns))
  {
    var r := Reverse(ns);
    ReverseAt(ns);
    forall i | 0 <= i < |r| - 1
      ensures r[i].next == r[i + 1]
    {
      assert r[i] == ns[|ns| - 1 - i] && r[i + 1] == ns[|ns| - 1 - i - 1];
    }
  }

  /** The data of the reversed nodes is the reversed data. */
  lemma DataOfReverse(ns: seq<Node>)
    ensures DataOf(Reverse(ns)) == Reverse(DataOf(ns))
  {
    ReverseAt(ns);
    ReverseAt(DataOf(ns));
  }

  class SimpleLinkedList {
    var head: Node?
    ghost var nodes: seq<Node>

    /** `head` starts an acyclic, null-terminated chain through `nodes`. */
    ghost predicate Valid()
      reads this, nodes
    {
      Chain(head, nodes) && Distinct(nodes)
    }

    /** The data held by the list, from `head` to the end. */
    ghost function Contents(): seq<string>
      reads this
    {
      DataOf(nodes)
    }

    /** An empty list. */
    constructor ()
      ensures Valid() && nodes == [] && head == null
    {
      head := null;
      nodes := [];
    }

    /** Appends a new node holding `data` after the last node. */
    method Add(data: string)
      requires Valid()
      modifies this, nodes
      ensures Valid()
      ensures Contents() == old(Contents()) + [data]
      ensures |nodes| == |old(nodes)| + 1 && nodes[..|old(nodes)|] == old(nodes)
      ensures fresh(nodes[|old(nodes)|])
      ensures old(head) == null ==> head == nodes[0] && head.next == null
      ensures old(head) != null ==> head == old(head)
    {
      var newNode := new Node(data);
      if head == null {
        head := newNode;
      } else {
        var current := head;
        ghost var i := 0;
        while current.next != null
          invariant Valid() && nodes == old(nodes)
          invariant 0 <= i < |nodes| && current == nodes[i]
          invariant i < |nodes| - 1 ==> current.next == nodes[i + 1]
          decreases |nodes| - i
        {
          current := current.next;
          i := i + 1;
        }
        current.next := newNode;
      }
      nodes := nodes + [newNode];
    }

    /** The middle node found by advancing one pointer a node at a time and
        another two at a time: null for an empty list, otherwise the node at
        index n/2, which for an even length n is the later of the two
        middles. */
    method FindMiddle() returns (middle: Node?)
      requires Valid()
      ensures nodes == [] ==> middle == null
      ensures nodes != [] ==> middle == nodes[|nodes| / 2]
    {
      if head == null {
        return null;
      }
      var slow := head;
      var fast := head;
      ghost var i := 0;
      while fast != null && fast.next != null
        invariant 0 <= 2 * i <= |nodes|
        invariant slow == nodes[i]
        invariant fast == if 2 * i < |nodes| then nodes[2 * i] else null
        invariant 2 * i + 1 < |nodes| ==> fast.next == nodes[2 * i + 1]
        decreases |nodes| - i
      {
        assert fast.next == nodes[2 * i + 1];
        assert slow.next == nodes[i + 1];
        assert fast.next.next == if 2 * i + 2 < |nodes| then nodes[2 * i + 2] else null;
        slow := slow.next;
        fast := fast.next.next;
        i := i + 1;
      }
      return slow;
    }

    /** Reverses the chain in place and returns a new list headed by the old
        last node. The nodes and their data are reused; only their `next`
        fields change. This list keeps its `head`, the old first node, which
        is now the tail of the reversed chain, so at most that node remains
        reachable from it. */
    method Invert() returns (inverted: SimpleLinkedList)
      requires Valid()
      modifies this, nodes
      ensures fresh(inverted) && inverted.Valid()
      ensures inverted.nodes == Reverse(old(nodes))
      ensures inverted.Contents() == Reverse(old(Contents()))
      ensures head == old(head)
      ensures Valid() && nodes == if old(nodes) == [] then [] else [old(nodes)[0]]
    {
      inverted := new SimpleLinkedList();
      ghost var ns := nodes;
      ghost var n := |ns|;
      var current := head;
      var prev: Node? := null;
      ghost var i := 0;
      while current != null
        invariant 0 <= i <= n
        invariant current == if i < n then ns[i] else null
        invariant prev == if i > 0 then ns[i - 1] else null
        invariant forall j {:trigger ns[j].next} :: 0 <= j < n ==> ns[j].next == NextAfter(ns, i, j)
        modifies ns
        decreases n - i
      {
        var nextNode := current.next;
        current.next := prev;
        prev := current;
        current := nextNode;
        i := i + 1;
      }
      inverted.head := prev;
      inverted.nodes := Reverse(ns);
      nodes := if n == 0 then [] else [ns[0]];
      BackwardChain(ns);
      DataOfReverse(ns);
      assert n > 0 ==> ns[0].next == null;
    }

    /** The data of every node from `head` to the end, joined; "" for an
        empty list. */
    method ToString() returns (s: string)
      requires Valid()
      ensures s == Concat(Contents())
    {
      s := "";
      if head != null {
        var current := head;
        ghost var i := 0;
        while current != null
          invariant 0 <= i <= |nodes|
          invariant current == if i < |nodes| then nodes[i] else null
          invariant s == Concat(Contents()[..i])
          decreases |nodes| - i
        {
          assert Contents()[..i + 1][..i] == Contents()[..i];
          s := s + current.data;
          current := current.next;
          i := i + 1;
        }
        assert Contents()[..i] == Contents();
      }
    }
  }

  /** The two joins the demonstration run prints. */
  lemma ConcatLetters()
    ensures Concat(["A", "B", "C", "D", "E"]) == "ABCDE"
    ensures Concat(["E", "D", "C", "B", "A"]) == "EDCBA"
  {
    assert ["A", "B", "C", "D", "E"][..4] == ["A", "B", "C", "D"];
    assert ["A", "B", "C", "D"][..3] == ["A", "B", "C"];
    assert ["A", "B", "C"][..2] == ["A", "B"];
    assert ["A", "B"][..1] == ["A"];
    assert ["A"][..0] == [];
    assert Concat(["A", "B", "C", "D"]) == "ABCD";
    assert ["E", "D", "C", "B", "A"][..4] == ["E", "D", "C", "B"];
    assert ["E", "D", "C", "B"][..3] == ["E", "D", "C"];
    assert ["E", "D", "C"][..2] == ["E", "D"];
    assert ["E", "D"][..1] == ["E"];
    assert ["E"][..0] == [];
    assert Concat(["E", "D", "C", "B"]) == "EDCB";
  }

  /** The inversion the demonstration run prints. */
  lemma ReverseLetters()
    ensures Reverse(["A", "B", "C", "D", "E"]) == ["E", "D", "C", "B", "A"]
  {
    var r := Reverse(["A", "B", "C", "D", "E"]);
    ReverseAt(["A", "B", "C", "D", "E"]);
    assert r[0] == "E" && r[1] == "D" && r[2] == "C" && r[3] == "B" && r[4] == "A";
  }

  /** The first part of the demonstration run: the middle of the empty list
      and of the lists A, AB and ABC. */
  method ShortListDemo() returns (emptyMiddle: Node?, middles: seq<string>)
    ensures emptyMiddle == null
    ensures middles == ["A", "B", "B"]
  {
    var demo := new SimpleLinkedList();
    emptyMiddle := demo.FindMiddle();
    demo.Add("A");
    var m1 := demo.FindMiddle();
    assert m1.data == "A";
    demo.Add("B");
    var m2 := demo.FindMiddle();
    assert m2.data == "B";
    demo.Add("C");
    var m3 := demo.FindMiddle();
    middles := [m1.data, m2.data, m3.data];
  }

  /** The first three additions of the demonstration run: A, B, C. */
  method ThreeLetters() returns (demo: SimpleLinkedList)
    ensures fresh(demo) && demo.Valid()
    ensures forall k :: 0 <= k < |demo.nodes| ==> fresh(demo.nodes[k])
    ensures demo.Contents() == ["A", "B", "C"]
  {
    demo := new SimpleLinkedList();
    demo.Add("A");
    assert demo.Contents() == ["A"];
    demo.Add("B");
    assert demo.Contents() == ["A", "B"];
    demo.Add("C");
  }

  /** The list the demonstration run builds: A, B, C, D, E added in turn. */
  method FiveLetters() returns (demo: SimpleLinkedList)
    ensures fresh(demo) && demo.Valid()
    ensures forall k :: 0 <= k < |demo.nodes| ==> fresh(demo.nodes[k])
    ensures demo.Contents() == ["A", "B", "C", "D", "E"]
  {
    demo := ThreeLetters();
    demo.Add("D");
    assert demo.Contents() == ["A", "B", "C", "D"];
    demo.Add("E");
  }

  /** The middle of the list A, B, C, D, E in the demonstration run. */
  method LongListDemo() returns (middle: string)
    ensures middle == "C"
  {
    var demo := FiveLetters();
    var m := demo.FindMiddle();
    middle := m.data;
  }

  /** The end of the demonstration run: the list A, B, C, D, E joined, then
      its inversion joined. */
  method InvertDemo() returns (original: string, inverted: string)
    ensures original == "ABCDE"
    ensures inverted == "EDCBA"
  {
    var demo := FiveLetters();
    original := demo.ToString();
    var inv := demo.Invert();
    assert inv.Contents() == ["E", "D", "C", "B", "A"] by {
      ReverseLetters();
    }
    inverted := inv.ToString();
    ConcatLetters();
  }
}
