# queue.c in Dafny

A model of `queue.c`, a queue of strings kept as a singly linked chain of
`list_ele_t` nodes with separate `head`, `tail` and `size` fields. Every
operation changes the queue in place, and the model keeps that form:

- `Lists.Node` is the element. `value` is a constant and `next` is a mutable link.
- `Queues.Queue` is a class with `head`, `tail` and `size`. It also has a ghost
  sequence `nodes`, the nodes reachable from `head` in link order, and a ghost
  frame `Repr`.
- `Queue.Valid()` ties these together:
  - following `next` from `head` visits exactly `nodes`, each node once, and
    then reaches null;
  - `size == |nodes|`;
  - `tail` is the last node, or null when the queue is empty.
- A null `queue_t *` is a null `Queue?`.
- A `malloc` that fails is a boolean argument.

The operations are methods over that state:

- `Queues` has `New`, `CreateElem`, `InsertHead`, `InsertTail`, `RemoveHead`,
  `Size`, `Reverse` and `Free`.
- `QueueSort` has the sort: `SortSlow` (the exchange sort `q_sort_slow`),
  `JoinResult`, `ListMergeSort` and `Sort` (`q_sort`). Their loops rewire the
  `next` links, as the C code does.

Each sort is proved against a function on the node sequence in `SortSpec`:
- `Pass` and `BubbleSort` for the exchange sort;
- `Merge` and `MergeSort` for the merge sort;
- `QSort` for `q_sort`, with the corrected exchange sort for 2 to 199 nodes
  (see Findings).

The lemmas there prove what those functions promise: the result of the merge
sort and of the corrected exchange sort, and so of `QSort`, is in strcmp order, it holds the same nodes, and nodes holding equal strings keep their
relative order, and sorting a second time changes nothing. `Strcmp` models the sign of C's `strcmp` and `strncpy` into a
buffer.

## Model

| member | source | states |
|---|---|---|
| Strcmp.Compare | queue.c:239-240 | the sign of `strcmp`: -1, 0 or 1, and 0 exactly when the two strings are equal |
| Strcmp.CompareAntisymmetric | queue.c:239-240 | swapping the arguments of `strcmp` flips the sign of its result |
| Strcmp.LeqTotal | queue.c:239-240 | any two strings are ordered one way or the other by `strcmp` |
| Strcmp.LeqTransitive | queue.c:239-240 | the order `strcmp(a, b) <= 0` is transitive |
| Strcmp.Strncpy | queue.c:135 | `strncpy(sp, value, bufsize)` copies the first `bufsize` characters, pads with NULs past the end of the string, and leaves the rest of the buffer alone |
| Queues.Queue.constructor | queue.c:17-20 | a fresh queue with null `head` and `tail`, size 0, no nodes, and the invariant established |
| Queues.ValidShape | queue.c:130-133 | in a valid queue, `head` and `tail` are null exactly when `size` is 0; one element means `head == tail`; `tail.next` is null; every other node has a successor |
| Queues.New | queue.c:12-25 | `q_new` returns null exactly when allocation fails, and otherwise a valid empty queue |
| Queues.Size | queue.c:154-160 | `q_size` is the number of elements, and 0 for a null queue |
| Queues.CreateElem | queue.c:54-76 | fails for a null queue or when either allocation fails; otherwise a fresh node holding a copy of `s`; its `next` starts null, where C leaves it unset until the caller links it |
| Queues.InsertHead | queue.c:77-90 | succeeds exactly when `q` is not null and both allocations succeed; the nodes become the new node followed by the old nodes, so the contents become `[s] + old`, `size` grows by 1, the new head links to the old head, and `tail` moves only when the queue was empty; on failure nothing changes |
| Queues.PrependChain | queue.c:85-86 | linking a node that is not yet in the queue in front of a chain gives a chain one longer |
| Queues.InsertTail | queue.c:99-116 | succeeds exactly when `q` is not null and both allocations succeed; the nodes become the old nodes followed by the new node, so the contents become `old + [s]`, `size` grows by 1, the old tail links to the new tail, and `head` moves only when the queue was empty; on failure nothing changes |
| Queues.AppendChain | queue.c:105-112 | linking a new node after the last node gives a chain one longer |
| Queues.RemoveHead | queue.c:126-148 | fails, changing nothing, exactly when `q` is null or empty; otherwise the nodes become the old nodes after the first, in order, so the contents become `old[1..]`, `size` drops by 1, the head node leaves the queue, and `tail` becomes null when the only element is removed; with a buffer, it receives at most `bufsize - 1` characters of the removed string, NUL padded, and nothing beyond `bufsize` changes |
| Queues.DropChain | queue.c:139-140 | unlinking the first node leaves a chain of the rest, without that node |
| Queues.Free | queue.c:33-43 | the release loop of `q_free` reaches every node of the queue exactly once, in link order, and stops |
| Queues.Reverse | queue.c:169-187 | `q_reverse` keeps the same nodes and allocates none; the node order, and so the contents, become the reverse of the old ones; the new `head` and `tail` are the old `tail` and `head` |
| Queues.ReverseLinks | queue.c:173-181 | the walk with `curr`, `oldprev` and `oldnext` points every node at the node that came before it, and the first node at null |
| Queues.ReverseChain | queue.c:176-185 | the nodes linked backwards form a chain of the reversed sequence, holding the same nodes, from the old tail to the old head |
| Queues.ReversedValid | queue.c:182-185 | after the links are turned around and `head` and `tail` are swapped, the queue is valid again |
| Lists.ReverseInvolution | queue.c:169-187 | reversing twice gives back the original order |
| Lists.ValuesReverse | queue.c:169-187 | reversing the nodes reverses the strings they hold |
| SortSpec.SwapNextAt | queue.c:215-219 | an exchange moves exactly the two nodes it relinks, trading their places, and keeps all nodes |
| QueueSort.SwappedChain | queue.c:215-219 | after the three link writes of an exchange, the chain runs through the swapped sequence, over the same nodes |
| QueueSort.Exchange | queue.c:211-220 | the exchange through `prev_indirect` leaves a valid queue whose nodes are the old ones with the pair at `curr` swapped, and `tail` follows the swapped node |
| QueueSort.ExchangedValid | queue.c:213-219 | after the writes of an exchange, including the `tail` update when the successor was the tail, the queue is valid |
| QueueSort.ExchangePass | queue.c:201-224 | one corrected inner pass, limited by `remaining`, leaves the nodes in the order `SortSpec.Pass` gives |
| QueueSort.SortSlow | queue.c:195-227 | corrected `q_sort_slow` leaves the nodes in the order of `SortSpec.BubbleSort`, keeps the queue valid, and keeps its frame |
| QueueSort.ExchangePassAsWritten | queue.c:201-224 | one inner pass as written, in which `curr` moves on again after an exchange, leaves the nodes in the order `SortSpec.PassAsWritten` gives |
| QueueSort.SortSlowAsWritten | queue.c:195-227 | `q_sort_slow` as written leaves the nodes in the order of `SortSpec.SortSlowAsWritten` and keeps the queue valid |
| SortSpec.PassSettles | queue.c:204-224 | a corrected pass with limit `remaining`, over nodes whose positions after `remaining` are already settled, leaves every position from `remaining` on holding a string no smaller than any before it; so position `remaining` holds the largest of the first `remaining + 1` strings |
| SortSpec.PassKeepsTail | queue.c:205-207 | the pass limit stops a corrected pass at position `remaining`: every position after it keeps its node |
| SortSpec.BubbleSortSorted | queue.c:195-227 | the corrected exchange sort leaves the strings in non-decreasing strcmp order |
| SortSpec.BubbleSortPermutes | queue.c:195-227 | the corrected exchange sort returns exactly the nodes it was given |
| SortSpec.BubbleSortStable | queue.c:210-211 | only strictly out-of-order pairs are exchanged, so nodes holding equal strings keep their relative order |
| SortSpec.SortSlowAsWrittenPermutes | queue.c:195-227 | `q_sort_slow` as written loses and duplicates no node |
| SortSpec.SortSlowAsWrittenUnsorted | queue.c:222-223 | for strings `[x, y, y, y]` with `y` below `x`, `q_sort_slow` as written ends with `[y, y, x, y]`, which is not sorted |
| SortSpec.MergePermutes | queue.c:229-270 | `join_result` returns exactly the nodes of both chains |
| SortSpec.MergeSorted | queue.c:238-268 | `join_result` of two sorted chains is sorted |
| SortSpec.MergeStable | queue.c:239-240 | with `first` sorted, the nodes holding any one string come out as those of `first` followed by those of `second`, because a tie takes `first` |
| SortSpec.MergeSortPermutes | queue.c:272-289 | `list_merge_sort` returns exactly the nodes it was given |
| SortSpec.MergeSortSorted | queue.c:272-289 | `list_merge_sort` leaves the strings in non-decreasing strcmp order |
| SortSpec.MergeSortStable | queue.c:272-289 | `list_merge_sort` keeps nodes holding equal strings in their original relative order |
| SortSpec.QSortCorrect | queue.c:291-305 | whichever strategy the corrected `q_sort` picks by size, the result is sorted, holds the same nodes, and is stable; fewer than 2 nodes stay as they are |
| SortSpec.PassSortedFixed | queue.c:204-224 | a corrected pass over nodes already in strcmp order exchanges nothing |
| SortSpec.PassesSortedFixed | queue.c:200-225 | the corrected exchange sort leaves nodes already in strcmp order as they are |
| SortSpec.MergeSortedConcat | queue.c:229-270 | `join_result` of two chains whose concatenation is in order links the first chain and then the second |
| SortSpec.MergeSortSortedFixed | queue.c:272-289 | `list_merge_sort` leaves nodes already in strcmp order as they are |
| SortSpec.QSortIdempotent | queue.c:291-305 | sorting the result of the corrected `q_sort` again gives the same node order |
| QueueSort.LastLinked | queue.c:243-256 | while `join_result` runs, the node `curr` linked last came from one of the two chains and is none of the nodes still waiting or already linked before it |
| QueueSort.MergeDistinct | queue.c:229-270 | merging two chains that share no node repeats no node |
| QueueSort.ChainJoin | queue.c:262-268 | linking `curr` to the rest of the chain that is left completes the merged chain |
| QueueSort.JoinResult | queue.c:229-270 | `join_result` of two disjoint chains returns the head of a chain linking their nodes in the order of `SortSpec.Merge`; a null argument returns the other chain |
| QueueSort.CutChain | queue.c:282-284 | setting `tmp->next = NULL` after the first `size / 2` nodes leaves two chains, of the first half and of the rest |
| QueueSort.ListMergeSort | queue.c:272-289 | `list_merge_sort` of a chain of `size` nodes returns the head of a chain linking them in the order of `SortSpec.MergeSort`, splitting at `size / 2` |
| QueueSort.SortedNodesSame | queue.c:294-300 | the merge-sorted chain has as many nodes as the queue, and the same ones |
| QueueSort.Sort | queue.c:291-305 | `q_sort` leaves a valid queue with the same frame whose nodes are in the order of `SortSpec.QSort`; `tail` is recomputed by walking the sorted chain |

## Left out

- SortSpec.QSortCorrect: `QSort` runs the corrected exchange sort for 2 to 199 nodes, so the order it proves is that of the corrected `q_sort`; `q_sort` as written can leave such a queue unsorted (see Findings). The same holds for `SortSpec.QSortIdempotent`.
- Queues.CreateElem: the new node's `next` is null, where `q_create_elem` leaves it uninitialised; both callers set it before the node is reachable.
- Memory: `malloc` failure is a boolean argument, and `free` is not modelled. `Queues.Free` models the release walk of `q_free` and returns the nodes it would free. It does not model the deallocation, the `free(q)` at queue.c:44, or the use of the queue afterwards.
- `size` is an unbounded integer, so its `int` overflow is not modelled.
- Strings are `seq<char>` without an embedded NUL. `strlen`, the allocated copy's terminator and byte storage are not modelled.
- `Strcmp.Compare`: compares characters by code point. C's `strcmp` compares bytes as `unsigned char`; the two orders agree for the byte values the model's characters stand for.
- Queues.RemoveHead: requires `1 <= bufsize <= sp.Length` when `sp` is given. With `bufsize == 0`, queue.c:136 writes `sp[-1]`, which is undefined behaviour. A buffer shorter than `bufsize` overflows.
- Performance: the O(1) `size` and insertion and the choice of 200 as the threshold are not modelled. Only the resulting order is.
- `harness.h` and its allocator hooks are not part of this model.
- QueueSort.Sort: for 2 to 199 nodes it runs the corrected exchange sort `QueueSort.SortSlow`, not `q_sort_slow` as written. The code as written is `QueueSort.SortSlowAsWritten`; see Findings.
- SortSpec.SortSlowAsWritten: only permutation is proved, not stability. Its result is not always sorted, as `SortSpec.SortSlowAsWrittenUnsorted` shows.

## Findings

The comments at queue.c:190 and queue.c:197 call `q_sort_slow` a bubble sort that sorts the queue in ascending order. As written, it does not always do so.

| source | as written | input that shows it | evidently intended | confidence | as-written member | corrected member |
|---|---|---|---|---|---|---|
| queue.c:222-223 | After an exchange, `curr` already sits one place further on, and `curr = curr->next` advances it once more. So the node just moved is never compared with its new successor. A pass can leave a larger string behind a smaller one. `q_sort` uses this sort for queues of 2 to 199 elements. | `["b", "a", "a", "a"]` ends as `["a", "a", "b", "a"]` | each pass compares the moved node with its new successor, so the queue ends in non-decreasing strcmp order | not executed | SortSpec.SortSlowAsWrittenUnsorted | SortSpec.BubbleSortSorted |
