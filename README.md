# Huffman encoding with a heap, and a simple linked list

This project models two small teaching programs in Dafny and proves what they promise.

**Huffman encoding** (`11-heaps/HuffmanEncodingWithHeap.java`). A message is turned into Huffman codes in five steps:

1. `countFrequency` builds a 256-slot histogram of the message's characters.
2. `buildForest` turns every occurring character into a one-leaf tree and inserts it into a min-heap.
3. `buildTree` repeatedly removes the two lightest trees and joins them under a new node whose frequency is their sum, until one tree is left.
4. `createEncodingTable` walks that tree. A left edge appends `'0'`, a right edge appends `'1'`, and every leaf with a non-zero symbol records its path in a 256-slot table.
5. `computeCompressionLength` adds up the code lengths of the message's characters.

The modules are arranged as follows:

- `HuffmanTree` holds the tree datatype, forests (multisets of trees) and the pure code table with its path and prefix-freeness lemmas.
- `PriorityQueue` holds the min-heap. It is a class over a multiset of trees, described only by the contract the encoder relies on.
- `HuffmanEncoding` holds the pipeline as imperative methods. Each method is proved against a specification function.
- Ghost "rounds" record which two trees each merge took. That record lets the properties of Huffman's greedy loop be stated as lemmas about runs.

**Simple linked list** (`13-wrapup/SimpleLinkedList.java`). This is a singly linked list of strings with four operations:

- `add` appends at the tail.
- `findMiddle` walks a slow and a fast pointer.
- `invert` reverses the list in place by relinking `next` pointers.
- `toString` concatenates the node data.

Module `LinkedList` models it with heap-allocated `Node` objects. A ghost sequence `nodes` lists the nodes reachable from `head`. `Valid()` says that this sequence is exactly the acyclic, null-terminated chain of `next` pointers.

Three behaviours of the code that are easy to get wrong:

- `findMiddle` returns the node at index n/2. For an even length that is the later of the two middles. The demonstration prints B for the list A, B.
- A message of one repeated character gets the empty code `""`. The root is then a leaf, and the walk records the code accumulated so far, which is empty.
- `invert` relinks the original nodes and returns a new list object headed by the old last node. The receiver keeps its old `head`, which now has `next == null`, so at most one node remains reachable from it.

## Model

| member | source | states |
|---|---|---|
| `HuffmanEncoding.CountFrequency` | 11-heaps/HuffmanEncodingWithHeap.java:17-26 | returns a fresh 256-slot array whose slot c is the number of occurrences of c in the message; a null message gives all zeros; requires every character below 256, the bound of the array index on line 22 |
| `HuffmanEncoding.OccurrencesPositive` | 11-heaps/HuffmanEncodingWithHeap.java:21-23 | a character's count is positive exactly when the character occurs in the message |
| `HuffmanEncoding.HistogramTotal` | 11-heaps/HuffmanEncodingWithHeap.java:18-25 | the histogram entries are non-negative and add up to the message length (so the empty message gives all zeros) |
| `HuffmanEncoding.LeafForestContents` | 11-heaps/HuffmanEncodingWithHeap.java:35-44 | the forest holds, exactly once, one leaf Leaf(c, f[c]) for every slot c with f[c] > 0, and nothing else |
| `HuffmanEncoding.LeafForestDistinct` | 11-heaps/HuffmanEncodingWithHeap.java:37-42 | the leaves of the forest are all leaves and carry pairwise distinct symbols |
| `HuffmanEncoding.LeafForestFreq` | 11-heaps/HuffmanEncodingWithHeap.java:37-42 | the total frequency of the forest equals the sum of the frequency table |
| `HuffmanEncoding.BuildForest` | 11-heaps/HuffmanEncodingWithHeap.java:35-44 | returns a fresh heap whose contents are exactly the leaf forest of the table |
| `PriorityQueue.MinHeap.constructor` | 11-heaps/HuffmanEncodingWithHeap.java:36 | a new heap is empty |
| `PriorityQueue.MinHeap.Insert` | 11-heaps/HuffmanEncodingWithHeap.java:69 | the heap's contents gain exactly the inserted tree |
| `PriorityQueue.MinHeap.Size` | 11-heaps/HuffmanEncodingWithHeap.java:56 | the size is the number of trees in the heap, counted with multiplicity |
| `PriorityQueue.MinHeap.RemoveMin` | 11-heaps/HuffmanEncodingWithHeap.java:58-59 | on a non-empty heap, returns a tree of least frequency and removes exactly one copy of it |
| `PriorityQueue.MinHeap.GetMin` | 11-heaps/HuffmanEncodingWithHeap.java:73 | on a non-empty heap, returns a tree of least frequency and leaves the heap unchanged |
| `PriorityQueue.MinExists` | 11-heaps/HuffmanEncodingWithHeap.java:58 | every non-empty forest has a tree of least frequency, so removeMin on a non-empty heap is always defined |
| `HuffmanEncoding.MergeShrinks` | 11-heaps/HuffmanEncodingWithHeap.java:58-69 | a merge round (two removed, one inserted) leaves one tree fewer in the forest |
| `HuffmanEncoding.MergeKeepsFreq` | 11-heaps/HuffmanEncodingWithHeap.java:58-69 | a merge round keeps the total frequency of the forest, because the new node weighs the sum of its two children |
| `HuffmanEncoding.MergeKeepsLeaves` | 11-heaps/HuffmanEncodingWithHeap.java:58-69 | a merge round keeps the multiset of leaves of the forest |
| `HuffmanEncoding.MergeKeepsShape` | 11-heaps/HuffmanEncodingWithHeap.java:58-66 | a greedy round builds a node whose frequency is the sum of its children's and whose left child is no heavier than its right child |
| `HuffmanEncoding.RoundStep` | 11-heaps/HuffmanEncodingWithHeap.java:57-69 | one pass of the loop body (removeMin, removeMin, insert of the combined node) extends the run by a greedy round and leaves one tree fewer in the heap |
| `HuffmanEncoding.RunConserves` | 11-heaps/HuffmanEncodingWithHeap.java:56-70 | after k greedy rounds the forest has k trees fewer and the same total frequency and leaves; well-formed, left-lighter trees stay so |
| `HuffmanEncoding.BuildTree` | 11-heaps/HuffmanEncodingWithHeap.java:55-74 | on a non-empty heap of n trees, performs n - 1 greedy rounds, each taking a least-frequency tree and then a least-frequency tree of the rest, and returns the one tree left, which stays in the heap |
| `HuffmanEncoding.RootOfRun` | 11-heaps/HuffmanEncodingWithHeap.java:55-74 | the root built from a forest of leaves is well formed and left-lighter, its leaves are that forest, and its frequency is the forest's total |
| `HuffmanTree.RootFreqIsLeafTotal` | 11-heaps/HuffmanEncodingWithHeap.java:62 | in a well-formed tree, the root frequency is the total frequency of the leaves |
| `HuffmanTree.Codes` | 11-heaps/HuffmanEncodingWithHeap.java:83-96 | the walk records exactly the tree's non-zero leaf symbols, each under a code that extends the accumulated code |
| `HuffmanTree.CodeTable` | 11-heaps/HuffmanEncodingWithHeap.java:105-109 | the table's symbols are the non-zero leaf symbols; a lone leaf root with a non-zero symbol gets the empty code; under an internal root every code has at least one bit |
| `HuffmanTree.CodesFollowLeafPaths` | 11-heaps/HuffmanEncodingWithHeap.java:86-93 | every recorded code is the accumulated code followed by the '0'/'1' path to a leaf carrying that symbol |
| `HuffmanTree.UniqueLeafPath` | 11-heaps/HuffmanEncodingWithHeap.java:86-93 | when no non-zero symbol labels two leaves, only one path leads to a leaf with that symbol |
| `HuffmanTree.CodeTableIsLeafPaths` | 11-heaps/HuffmanEncodingWithHeap.java:83-109 | codes are exactly root-to-leaf paths: every entry is a path to its symbol's leaf, and with unique symbols every non-zero leaf's path is its symbol's entry |
| `HuffmanTree.CodeTablePrefixFree` | 11-heaps/HuffmanEncodingWithHeap.java:83-109 | no symbol's code is a prefix of another symbol's code |
| `HuffmanEncoding.FillEncodingTable` | 11-heaps/HuffmanEncodingWithHeap.java:83-96 | the recursive walk writes each non-zero leaf symbol's code into its slot of the array and leaves every other slot as it was |
| `HuffmanEncoding.CreateEncodingTable` | 11-heaps/HuffmanEncodingWithHeap.java:105-109 | returns a fresh 256-slot array holding the code table's code in each symbol's slot and null in every other slot |
| `HuffmanEncoding.ComputeCompressionLength` | 11-heaps/HuffmanEncodingWithHeap.java:131-137 | returns the sum of the code lengths of the message's characters; requires every character to have a code |
| `HuffmanEncoding.CompressedIsWeighted` | 11-heaps/HuffmanEncodingWithHeap.java:131-137 | the compressed length equals the sum over symbols c of (occurrences of c) times (length of c's code) |
| `HuffmanEncoding.HuffmanTreeOfMessage` | 11-heaps/HuffmanEncodingWithHeap.java:157-159 | the tree built from a message is well formed and left-lighter, its leaves are the message's leaf forest, and its frequency is the message length |
| `HuffmanEncoding.LeavesOfMessage` | 11-heaps/HuffmanEncodingWithHeap.java:157-159 | that tree has one leaf per occurring character, carrying its count, no symbol twice, and a non-zero leaf symbol exactly for each occurring character |
| `HuffmanEncoding.RootShape` | 11-heaps/HuffmanEncodingWithHeap.java:55-73 | the root is a lone leaf exactly when the message repeats a single character |
| `HuffmanEncoding.CodesOfMessage` | 11-heaps/HuffmanEncodingWithHeap.java:156-160 | exactly the occurring characters get a code; codes are the root-to-leaf paths and are prefix-free; one repeated character gets ""; otherwise every code is non-empty |
| `HuffmanEncoding.BuildCodes` | 11-heaps/HuffmanEncodingWithHeap.java:157-160 | the first four steps on a non-empty message: the root is the one tree left at the end of a greedy run (two least-frequency trees merged per round) over the message's leaf forest; exactly the occurring characters get a code; each code is the path to that character's leaf, and each such path is the code; codes are prefix-free; one repeated character gets ""; otherwise every code is non-empty |
| `HuffmanEncoding.Encode` | 11-heaps/HuffmanEncodingWithHeap.java:146-163 | the whole pipeline on a non-empty message: the root ends a greedy Huffman run over the message's leaves, the code facts above hold, the compressed length is the sum over symbols of count times code length, and the baseline (`UncompressedLength`, line 148) is 8 bits per character |
| `LinkedList.ReverseAt` | 13-wrapup/SimpleLinkedList.java:70-84 | element i of the reversed sequence is element n-1-i of the original |
| `LinkedList.DataOfReverse` | 13-wrapup/SimpleLinkedList.java:70-84 | the data of the reversed nodes are the reversed data, because relinking leaves each node's data untouched |
| `LinkedList.Node.constructor` | 13-wrapup/SimpleLinkedList.java:33-34 | a new node holds the given data and has no successor |
| `LinkedList.SimpleLinkedList.constructor` | 13-wrapup/SimpleLinkedList.java:107 | a new list is empty and well formed |
| `LinkedList.SimpleLinkedList.Add` | 13-wrapup/SimpleLinkedList.java:32-44 | the list stays acyclic and null-terminated, its data become the old data followed by d, and the existing nodes stay in place; on an empty list, head becomes the new node, whose next is null |
| `LinkedList.SimpleLinkedList.FindMiddle` | 13-wrapup/SimpleLinkedList.java:50-64 | null on an empty list, otherwise the node at index n/2 (the later middle for even n); changes nothing |
| `LinkedList.BackwardChain` | 13-wrapup/SimpleLinkedList.java:75-82 | once every next pointer points back at its predecessor, the last node heads an acyclic, null-terminated chain through the reversed nodes |
| `LinkedList.SimpleLinkedList.Invert` | 13-wrapup/SimpleLinkedList.java:70-84 | the returned fresh list chains the same node objects in reverse order, so its data are the reversed data; the receiver keeps its head, which is now the last node, so it holds one node if it was non-empty and none otherwise |
| `LinkedList.SimpleLinkedList.ToString` | 13-wrapup/SimpleLinkedList.java:90-100 | returns the concatenation of the node data from head to the end ("" for an empty list); changes nothing |
| `LinkedList.ShortListDemo` | 13-wrapup/SimpleLinkedList.java:107-118 | the demonstration's middles: null for the empty list, then A, B and B after adding A, B and C |
| `LinkedList.LongListDemo` | 13-wrapup/SimpleLinkedList.java:120-122 | after adding D and E, the middle of A..E is C |
| `LinkedList.InvertDemo` | 13-wrapup/SimpleLinkedList.java:124-125 | the list A..E prints as ABCDE and its inversion as EDCBA |

## Left out

- `MinHeap` and `HuffmanNode` are not part of this model. The heap is a class over a multiset of trees with the contract the encoder relies on (insert, size, removeMin and getMin of a least-frequency tree). Sift-up and sift-down are not modelled, and neither is the heap's tie-breaking among equal frequencies.
- Optimality of the Huffman code is not proved: no lemma shows that the greedy run gives the least weighted code length among prefix codes, nor that the compressed length is at most 8 bits per character. The contracts state that the tree comes from a greedy run, and what its codes are.
- Exact bit-strings for a given message are not stated. They depend on that tie-breaking. The model proves shape-independent facts instead: paths, prefix-freeness, sums and lengths.
- `buildTree` on an empty heap ends in `getMin` on an empty heap, whose result the model does not define. `BuildTree` requires a non-empty forest, and `Encode` a non-empty message.
- `Encode` requires every character of the message to be between 1 and 255. Character 0 would make a leaf with symbol 0, which the walk takes for an internal node, so that leaf gets no code. `computeCompressionLength` would then dereference a null code. The walk itself (`Codes`, `FillEncodingTable`) does model the symbol-0 behaviour.
- Java `int` overflow is not modelled: counts, frequencies and lengths are unbounded integers.
- The `(char)` cast in `buildForest` is modelled as a value modulo 65536. Java `String` and `char` details beyond that are not modelled: a message is a sequence of characters, and a node's data is a string.
- `displayCodes`, `reportEfficiency` and both `main` methods print to the console, and printing is not modelled. `Encode` returns the values the report prints: the code table, the compressed length and `message.length() * 8`. The linked-list demonstration is modelled by methods that return what it prints.
- `Node.toString` is not modelled. It returns the node's data, which the model reads directly.
- `String.format("%s", …)` in `toString` is modelled as plain concatenation of the data strings.
- A `null` data string is not modelled.
- Sharing of nodes between lists is modelled only as far as `invert` creates it. After `invert`, the receiver and the returned list share the old first node: the receiver's `nodes` is that node alone, and it is the last of the returned list's `nodes`, as `Invert`'s contract states. `Valid()` only requires the nodes of one list to be distinct, and no contract describes one list after the other changes. In the code, an `add` on the receiver after `invert` would relink the tail of the inverted list.
