# sjtu::list — a verified model

`sjtu::list<T>` (list.hpp) is a doubly-linked list. Its data nodes sit
between two sentinel nodes, `head` and `tail`, that stay for the life of
the list. It keeps a stored element count. Its iterators pair a node with
the list that issued them. Two protected helpers do most of the splicing:
`insert(pos, cur)` links a node in before `pos`, and `erase(pos)` unlinks
one. The exceptions are `merge`, which writes its own unlink and relink
(list.hpp:498-512), and `reverse`, which rewrites every node's links
directly (list.hpp:526-540). The public operations built on the helpers
are:

- `insert`, `erase`, `push_*`, `pop_*`;
- `clear`, copy construction and copy assignment.

Four algorithms rewrite the chain in place:

- `sort` copies the values out to an array, sorts it, and writes them back
  into the same nodes;
- `merge` moves the nodes of another list into this one in a single pass;
- `reverse` swaps every node's links;
- `unique` unlinks neighbouring repeats.

The model is imperative Dafny, built as follows.

- **Nodes.** `SjtuList.Node` is a class with the fields `data`, `prev` and
  `next`. A sentinel's `data` is `None`, which plays the role of the null
  data pointer.
- **Lists.** `SjtuList.List` is a class with the fields `head`, `tail` and
  `count`. It also has two ghost fields: `nodes`, the whole chain from
  `head` to `tail`, and `Contents`, the elements.
- **The invariant.** `Valid()` ties the fields together:
  - consecutive nodes point at each other both ways;
  - there are no repeated nodes;
  - the ends are the sentinels, and exactly the sentinels carry no data;
  - `count` is the number of data nodes;
  - the data nodes hold `Contents` in order.
- **Operations.** Every operation is a method or function over this state.
  Its contract gives the new chain and the new elements, and the error it
  reports, if any.
- **Specification functions.** The four algorithms are specified by
  functions on sequences: `SortSeq`, `MergeBy`, `Reversed` and `DedupBy`.
  Lemmas prove what the header promises about each of them:
  - ascending permutation;
  - tie-break order and sortedness;
  - involution;
  - no neighbouring repeats.
- **Node-level results.** `merge` and `unique` also have a node-level
  result. The surviving or moved nodes are the same objects, in the order
  the specification function dictates for the nodes keyed by their
  values.
- **Iterators.** Iterators are datatypes holding a node and a list.
  Dereference, stepping and comparison are functions.

In three places the comments of list.hpp promise more, or say less, than
the code does. The model follows the code.

- `sort`'s comment (list.hpp:456) asks only that the values end up in
  ascending order. The code copies the values out to an array and writes
  them back into the same nodes (list.hpp:461-476); it never relinks a
  node. `List.Sort` therefore promises `nodes == old(nodes)`.
- `merge`'s comment (list.hpp:481-482) calls both lists sorted, but the
  code does not check this and runs the same pass on any two lists.
  `MergeBy` is defined for all inputs, and sortedness of the result is a
  separate lemma that assumes sorted inputs.
- `operator*` and `operator->` throw on a null or sentinel node
  (list.hpp:129-145, 225-241), but `++` and `--` follow `ptr->next` and
  `ptr->prev` without any check (list.hpp:94-123, 190-219). The model asks
  only for a non-null node when stepping. Stepping off either end yields
  the null node, which is what the chain holds there.

## Model

| member | source | states |
|---|---|---|
| SjtuList.ToConst | list.hpp:185 | converting an `iterator` to a `const_iterator` keeps both its node and the list it names |
| SjtuList.Read | list.hpp:129-145 | reading through a node fails with `InvalidIterator` exactly when the node is null or a sentinel; otherwise it yields the node's value |
| SjtuList.Deref | list.hpp:129-145 | `*it` and `it->` on an `iterator` throw `invalid_iterator` exactly for a null or sentinel node, whatever list the iterator names; otherwise they yield the node's value |
| SjtuList.ConstDeref | list.hpp:225-241 | the same for a `const_iterator` |
| SjtuList.Next | list.hpp:103-106 | `++it` moves to the node's `next` and keeps the list the iterator names |
| SjtuList.Prev | list.hpp:120-123 | `--it` moves to the node's `prev` and keeps the list the iterator names |
| SjtuList.ConstNext | list.hpp:199-202 | `++it` on a `const_iterator` moves to `next` and keeps the list it names |
| SjtuList.ConstPrev | list.hpp:216-219 | `--it` on a `const_iterator` moves to `prev` and keeps the list it names |
| SjtuList.Equal | list.hpp:150-152 | two iterators compare equal exactly when they name the same node; the lists they name are not looked at |
| SjtuList.EqualConst | list.hpp:154-156 | an `iterator` and a `const_iterator` compare equal exactly when they name the same node, in either order (list.hpp:246-248 is the same test from the other side) |
| SjtuList.ConstEqual | list.hpp:250-252 | two `const_iterator`s compare equal exactly when they name the same node |
| SjtuList.Node.Sentinel | list.hpp:29 | a sentinel node holds no data and has no links |
| SjtuList.Node.constructor | list.hpp:32 | a data node holds the given value and has no links yet |
| SjtuList.List.constructor | list.hpp:271-277 | a new list is well formed and empty, with `head.next == tail` and `tail.prev == head` |
| SjtuList.List.Copy | list.hpp:279-289 | the copy holds the same elements as `other`; all of its nodes are new and it shares none with `other` |
| SjtuList.List.Assign | list.hpp:303-314 | self-assignment leaves the chain as it was. Otherwise the list ends up holding exactly `other`'s elements in new data nodes, and `other` is left unchanged |
| SjtuList.List.AppendAll | list.hpp:286-288 | appending `other` front to back extends the elements by `other`'s elements. The earlier nodes stay in place, every added node is new, and `other` is untouched |
| SjtuList.List.AppendStep | list.hpp:309-310 | one `push_back` of `other`'s k-th element: exactly one new node, placed last, and the scan moves to `other`'s next node |
| SjtuList.List.InsertNode | list.hpp:54-61 | splicing `cur` in before the node at position i keeps the list well formed. The chain gains `cur` at i and the elements gain its value at i-1; `count` grows by one through `Valid` |
| SjtuList.List.EraseNode | list.hpp:67-72 | unlinking the data node at position i keeps the list well formed. The chain and the elements lose exactly that node and its value; `count` drops by one |
| SjtuList.List.Clear | list.hpp:373-379 | afterwards the list is empty, the chain is just the two sentinels, and `head.next == tail` |
| SjtuList.List.Insert | list.hpp:386-393 | a foreign iterator gives `InvalidIterator` and changes nothing. Otherwise the value appears right before `pos`, the chain grows by one new node, and the result dereferences to the value; before `end()` it is appended |
| SjtuList.List.Erase | list.hpp:400-412 | an empty list gives `ContainerIsEmpty` before any iterator check. A foreign or sentinel iterator gives `InvalidIterator`, and an error changes nothing. Otherwise exactly that node and its element go, and the result is the following node, equal to `end()` exactly when the erased node was last |
| SjtuList.List.PushBack | list.hpp:417-420 | the value is appended as a new node just before `tail` |
| SjtuList.List.PushFront | list.hpp:438-441 | the value is prepended as a new node just after `head` |
| SjtuList.List.PopBack | list.hpp:426-433 | an empty list gives `ContainerIsEmpty` and changes nothing; otherwise exactly the last element and node go |
| SjtuList.List.PopFront | list.hpp:447-454 | an empty list gives `ContainerIsEmpty` and changes nothing; otherwise exactly the first element and node go |
| SjtuList.List.Front | list.hpp:320-325 | fails with `ContainerIsEmpty` exactly when there are no elements; otherwise yields the first element |
| SjtuList.List.Back | list.hpp:327-332 | fails with `ContainerIsEmpty` exactly when there are no elements; otherwise yields the last element |
| SjtuList.List.Begin | list.hpp:337-339 | `begin()` is the node after `head`, tagged with this list |
| SjtuList.List.End | list.hpp:348-350 | `end()` is `tail`, tagged with this list |
| SjtuList.List.ConstBegin | list.hpp:341-343 | `cbegin()` is `begin()` converted to a `const_iterator` |
| SjtuList.List.ConstEnd | list.hpp:352-354 | `cend()` is `end()` converted to a `const_iterator` |
| SjtuList.List.Empty | list.hpp:359-361 | true exactly when there are no elements |
| SjtuList.List.Size | list.hpp:366-368 | the number of elements |
| SjtuList.List.Walk | list.hpp:103-106 | k increments from `begin()` reach the chain node k+1 |
| SjtuList.List.DerefAt | list.hpp:129-145 | dereferencing a data node yields its element. Dereferencing either sentinel fails with `InvalidIterator`, whichever list the iterator names |
| SjtuList.List.StepAt | list.hpp:103-123 | `++` and `--` move exactly one place along the chain, and yield null when stepping off either end |
| SjtuList.List.Traversal | list.hpp:337-350 | walking from `begin()` reads the elements in order, and meets `end()` after exactly `size()` steps and not before |
| SjtuList.List.BeginIsEnd | list.hpp:337-361 | `begin() == end()` exactly when `empty()`. On a non-empty list `*begin()` is `front()`; on an empty one it fails with `InvalidIterator` |
| SjtuList.ToConstAgrees | list.hpp:150-263 | a converted iterator dereferences, steps and compares exactly as the original does. Comparison looks at the node only |
| SjtuList.SplicedIn | list.hpp:54-61 | after the four link writes of `insert(pos, cur)`, the longer chain is linked both ways and has no repeated nodes. It holds the old values with `cur`'s value at the splice point |
| SjtuList.SplicedOut | list.hpp:67-72 | after the two link writes of `erase(pos)`, the shorter chain is linked both ways and has no repeated nodes. It holds the old values without `pos`'s |
| SjtuList.List.Sort | list.hpp:459-479 | the elements become `SortSeq` of the old ones, and the chain keeps the very same nodes |
| SjtuList.List.ToArray | list.hpp:463-467 | the new array holds the elements front to back |
| SjtuList.List.WriteBack | list.hpp:473-476 | the data nodes take the array's values in order; the chain is unchanged |
| Algorithm.SortArray | list.hpp:470 | the array ends up as `SortSeq` of its old contents |
| Algorithm.InsertSortedCorrect | list.hpp:470 | inserting into an ascending sequence keeps it ascending, and adds exactly the one value |
| Algorithm.SortSeqCorrect | list.hpp:456-470 | `SortSeq` is ascending and a permutation of its input |
| Algorithm.AscendingPermutationUnique | list.hpp:456-470 | two ascending permutations of the same values are equal, so any correct comparator sort gives `SortSeq` |
| Algorithm.SortSeqSorted | list.hpp:459-479 | an already ascending input is left as it is |
| Algorithm.SortExample | list.hpp:459-479 | [3,1,2] sorts to [1,2,3] |
| SjtuList.List.Merge | list.hpp:489-517 | merging with itself changes nothing. Otherwise the data nodes become `MergeBy` of the two old node chains (same objects, no copies) and the elements become `MergeBy` of the two element sequences. `other` is left with just its two sentinels |
| SjtuList.List.MergeLoop | list.hpp:495-516 | the loop keeps the scan invariant, which says that what is final plus the merge of what is left is the merge of the originals, until `other` is used up |
| SjtuList.List.MergeStep | list.hpp:496-515 | one turn keeps the scan invariant and takes exactly one node off the remaining work. Only nodes of the two old chains occur afterwards |
| SjtuList.List.TakeFirst | list.hpp:496-512 | when the receiver is used up or `other`'s first value is strictly smaller, moving that node in before the current node keeps the scan invariant |
| SjtuList.List.Transfer | list.hpp:498-512 | unlinking `other`'s first data node and splicing it in before `pos` removes it from `other`'s chain and elements, and inserts it into this chain at `pos`'s place. Both lists stay well formed |
| SjtuList.List.TakenScan | list.hpp:496-512 | after the move, the scan invariant holds with that node final |
| SjtuList.List.SkipScan | list.hpp:513-515 | otherwise, stepping past the receiver's current node keeps the scan invariant |
| MergeSpec.MergeTake | list.hpp:496-512 | taking `other`'s first element when the receiver is used up or it is strictly smaller preserves the promised result |
| MergeSpec.MergeSkip | list.hpp:513-515 | stepping past the receiver's element when it is not larger preserves the promised result |
| MergeSpec.MergeScanDone | list.hpp:495-517 | when `other` is used up, the receiver's chain is the merge of the original chains, and its elements are the merge of the original elements |
| MergeSpec.MergeValues | list.hpp:489-517 | the merge of nodes read through their values is the merge of the values |
| MergeSpec.MergeKeys | list.hpp:489-517 | reading keys commutes with merging |
| MergeSpec.MergeInterleaves | list.hpp:485-487 | the merge is a shuffle of the two inputs that keeps each input's own order |
| MergeSpec.MergePermutation | list.hpp:484-487 | the merge holds exactly the elements of both inputs, so the receiver's count grows by `other`'s |
| MergeSpec.MergeSorted | list.hpp:481-483 | merging two ascending inputs gives an ascending result |
| MergeSpec.MergeTieBreak | list.hpp:485-486 | for sorted inputs, the elements with any one value come out as all of the receiver's, in order, followed by all of `other`'s, in order |
| MergeSpec.TieBreakTakeSecond | list.hpp:496-512 | the tie-break order survives taking `other`'s strictly smaller element |
| MergeSpec.TieBreakTakeFirst | list.hpp:513-515 | the tie-break order survives keeping the receiver's element |
| MergeSpec.MergeHeadSecond | list.hpp:496 | when the receiver is used up or `other`'s element is strictly smaller, the merge starts with `other`'s element |
| MergeSpec.MergeHeadFirst | list.hpp:513-514 | on a tie, or when the receiver's element is smaller, the merge starts with the receiver's element |
| MergeSpec.FilterAbove | list.hpp:485-486 | a sorted sequence starting above v has no element with value v |
| MergeSpec.MergeExample | list.hpp:485-486 | with every element named, [1,3,3,5] merged with [2,3,4] puts the receiver's two 3s, in their own order, before `other`'s 3 |
| SjtuList.List.ValueOfKeys | list.hpp:548-561 | the nodes' current values form a key that `Unique` accepts |
| SjtuList.List.ValueOfKeysWith | list.hpp:489-517 | the current values of the nodes of both lists form one key that fits both lists, as `Merge` requires |
| SjtuList.List.Reverse | list.hpp:523-541 | the same data nodes stay between the same sentinels in the opposite order, and the elements are reversed. A list of at most one element is unchanged |
| SjtuList.List.SwapEach | list.hpp:526-532 | the loop swaps `prev` and `next` of every data node, and leaves the sentinels and the values as they were |
| SjtuList.List.SwapStep | list.hpp:528-531 | one turn swaps the current node's links and moves to its old `next` |
| SjtuList.List.SwapLinks | list.hpp:526-540 | after the loop and the sentinel rewiring, `head` and `tail` point at the old last and first data nodes. Every inner data node points backwards, and no node repeats |
| SjtuList.List.RelinkEnds | list.hpp:535-540 | swapping the sentinels' inner links and pointing the new end nodes back at them completes the reversed links |
| SjtuList.ReversedChain | list.hpp:523-541 | those links form a chain of the reversed data nodes that is linked both ways and has no repeated nodes. It holds the reversed elements |
| ReverseSpec.ReversedAt | list.hpp:523-541 | position k of the reversal is position n-1-k of the input, and the length is kept |
| ReverseSpec.ReversedTwice | list.hpp:519-541 | reversing twice restores the original |
| ReverseSpec.ReversedShort | list.hpp:524 | with at most one element, reversal changes nothing |
| ReverseSpec.ReversedMultiset | list.hpp:519-521 | reversal keeps exactly the same elements |
| SjtuList.List.Unique | list.hpp:548-561 | the surviving data nodes are `DedupBy` of the old chain (the same objects in their old order). The elements become `DedupBy` of the old elements, and no new node appears |
| SjtuList.List.UniqueLoop | list.hpp:552-560 | the loop keeps the scan invariant until a single node is left to look at |
| SjtuList.List.UniqueStep | list.hpp:553-559 | one turn keeps the scan invariant and shortens the remaining work |
| SjtuList.List.DroppedScan | list.hpp:553-556 | unlinking a neighbour equal to the current node keeps the scan invariant, with the current position unchanged |
| SjtuList.List.KeptScan | list.hpp:557-558 | moving past a different neighbour keeps the scan invariant |
| UniqueSpec.DedupScanDone | list.hpp:552-561 | when the scan stops, the chain is `DedupBy` of the original data nodes, and the elements are `DedupBy` of the original elements |
| UniqueSpec.DedupValues | list.hpp:548-561 | deduplicating nodes and reading their values is deduplicating the values |
| UniqueSpec.DedupKeys | list.hpp:548-561 | reading keys commutes with deduplication |
| UniqueSpec.DedupShape | list.hpp:543-546 | the result is no longer than the input, keeps its first element and only its elements, and has no two equal neighbours |
| UniqueSpec.DedupKeepsKeys | list.hpp:543-546 | every value of the input still occurs: only repeats go |
| UniqueSpec.DedupIsRunHeads | list.hpp:545 | only the first element of each group of equal neighbours is left: the result is the input's first element followed by every element whose value differs from the one just before it, in order |
| UniqueSpec.DedupFixpoint | list.hpp:552-560 | without neighbouring repeats nothing is removed |
| UniqueSpec.DedupIdempotent | list.hpp:548-561 | running `unique` twice removes nothing more |
| UniqueSpec.DedupSorted | list.hpp:543-546 | on a sorted input every value is left exactly once: the result is strictly ascending, so no value occurs twice, and every value of the input still occurs |
| UniqueSpec.DedupExample | list.hpp:543-546 | [1,1,2,2,2,3,1] becomes [1,2,3,1]: repeats that are not neighbours stay |

## Left out

- Memory management is not modelled: `new` is object allocation, `delete` is left out, and so is the destructor (list.hpp:294-298). An erased node simply leaves the chain.
- The element type `T` is fixed to `int`, and `operator<` and `operator==` are integer comparisons. Each element sits directly in its node (`Some(v)`), not behind a separately allocated pointer, so `sort`'s write through `cur->data` is a write of the node's value.
- exceptions.hpp is not part of this model. `invalid_iterator` and `container_is_empty` are the two `Error` variants returned in a `Result`.
- algorithm.hpp is not part of this model. `Algorithm.SortArray` stands for `sjtu::sort` and is given by its promise, the ascending permutation of the array. It is realised as an insertion sort on sequences. The comparator lambda is `<` on `int`.
- `count` is an unbounded `nat`. `size_t` wrap-around is not modelled. It cannot arise while `Valid()` holds, since `count` is then decremented only on a non-empty list. It can arise in the case of an iterator whose node `merge` moved, described below, which the model leaves out: `b.erase(it)` can take `b.count` to 0 while `b`'s chain still holds a node, and a later `b.clear()` (list.hpp:374-377, also run by the destructor) then decrements 0.
- The post-increment and post-decrement forms (list.hpp:94-98, 111-115, 190-194, 207-211) are not separate members. They do the same step as `Next`/`Prev` and return the iterator as it was before.
- `operator->` is the same check and read as `operator*` (`Read`). `operator!=` is the negation of `Equal`.
- Stepping an iterator whose node is null is undefined behaviour in the source, so `Next`, `Prev`, `ConstNext` and `ConstPrev` require a non-null node.
- `SjtuList.List.Insert`, `SjtuList.List.Erase`: require an iterator tagged with this list to name a node of its chain; `Insert` also excludes `head`, because splicing before `head` dereferences its null `prev`. This leaves out two cases. One is an iterator whose node was erased or cleared, which is undefined behaviour. The other is an iterator into `b` whose node `a.merge(b)` has moved into `a` (list.hpp:498-512): it still names `b`, so `b.insert(it, v)` passes the check of list.hpp:386 and splices into `a`'s chain, and once `b` is non-empty again `b.erase(it)` passes the checks of list.hpp:400-405 and unlinks a node of `a` while decrementing `b`'s count. The model does not capture that corruption of both lists.
- `SjtuList.List.Assign`, `SjtuList.List.Merge`: require the two distinct lists to share no node. The source maintains this implicitly, since every node is created inside one list and `merge` moves nodes rather than sharing them.
- `SjtuList.List.Merge`, `SjtuList.List.Unique`: take a ghost key function. Their node-level contract needs one. `ValueOfKeys` supplies it for `Unique` from the current node values, and `ValueOfKeysWith` supplies it for `Merge` from the current values of both lists' nodes.
- `merge`'s inlined unlink and relink writes (list.hpp:498-512) are modelled by `Transfer`. `Transfer` calls `EraseNode` on `other` and `InsertNode` on the receiver, which perform the same six pointer writes and the same two count updates.
- Writing through `*it` or `it->` on an `iterator` is not modelled. `Deref` only reads, although `operator*` returns a `T &` (list.hpp:129) and `operator->` a `T *` (list.hpp:140). The only write of a node's value in the model is `sort`'s write-back.
- Virtual dispatch, templates over arbitrary `T`, and the const-ness of `const_iterator` are left out. The one-way conversion `ToConst` is kept.
