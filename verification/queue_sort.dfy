/**
 * The sorting half of queue.c: the exchange sort `q_sort_slow` (as written,
 * and corrected), the chain merge `join_result`, the merge sort
 * `list_merge_sort`, and `q_sort`, which picks one of them by size.
 */
module QueueSort {
  import opened Strcmp
  import opened Lists
  import opened SortSpec
  import opened Queues

  /**
   * After the three link writes of one exchange, the chain runs through the
   * swapped sequence.
   */
  lemma SwappedChain(h: Node?, ns: seq<Node>, pos: int)
    requires 0 <= pos && pos + 1 < |ns| && Distinct(ns)
    requires Untouched(ns, pos)
    requires pos > 0 ==> ns[pos - 1].next == ns[pos + 1]
    requires ns[pos + 1].next == ns[pos] && ns[pos].next == Successor(ns, pos + 1)
    requires h == if pos == 0 then ns[1] else ns[0]
    ensures IsChain(h, SwapNext(ns, pos))
    ensures Elements(SwapNext(ns, pos)) == Elements(ns)
  {
    var s := SwapNext(ns, pos);
    SwapNextAt(ns, pos);
    forall i | 0 <= i < |s|
      ensures s[i].next == Successor(s, i)
    {
      if i == pos - 1 {
      } else if i == pos {
      } else if i == pos + 1 {
      } else {
        assert s[i] == ns[i] && ns[i].next == Successor(ns, i);
      }
    }
    PermutationDistinct(ns, s);
    PermutationElements(ns, s);
  }

  /**
   * The exchange step of `q_sort_slow`: `curr` and its successor trade places
   * by relinking, and `tail` follows when the successor was the tail.
   * `prev` stands for `prev_indirect`: null for `&q->head`, otherwise the node
   * whose `next` field it points at.
   */
  method Exchange(q: Queue, prev: Node?, curr: Node, ghost pos: int)
    requires q.Valid() && 0 <= pos && pos + 1 < |q.nodes|
    requires curr == q.nodes[pos] && prev == if pos == 0 then null else q.nodes[pos - 1]
    modifies q.Repr
    ensures q.Valid() && q.Repr == old(q.Repr)
    ensures q.nodes == SwapNext(old(q.nodes), pos)
  {
    ghost var ns := q.nodes;
    var nxt := curr.next;
    assert nxt == Successor(ns, pos) == ns[pos + 1];
    assert nxt.next == Successor(ns, pos + 1);
    DistinctAt(ns, pos);
    DistinctAt(ns, pos + 1);
    if pos > 0 {
      DistinctAt(ns, pos - 1);
    }
    assert Untouched(ns, pos);
    if nxt == q.tail {
      q.tail := curr;
    }
    if prev == null {
      q.head := nxt;
    } else {
      prev.next := nxt;
    }
    assert Untouched(ns, pos);
    var oldnextnext := nxt.next;
    nxt.next := curr;
    assert Untouched(ns, pos);
    curr.next := oldnextnext;
    assert Untouched(ns, pos);
    q.nodes := SwapNext(ns, pos);
    ExchangedValid(q, ns, pos);
  }

  /** The links that an exchange at `pos` does not rewrite still follow `ns`. */
  ghost predicate Untouched(ns: seq<Node>, pos: int)
    reads ns
  {
    forall i {:trigger Successor(ns, i)} :: 0 <= i < |ns| && i != pos - 1 && i != pos && i != pos + 1 ==> ns[i].next == Successor(ns, i)
  }

  /** After the link writes of `Exchange`, the queue is well formed again. */
  lemma ExchangedValid(q: Queue, ns: seq<Node>, pos: int)
    requires 0 <= pos && pos + 1 < |ns| && Distinct(ns)
    requires Untouched(ns, pos)
    requires pos > 0 ==> ns[pos - 1].next == ns[pos + 1]
    requires ns[pos + 1].next == ns[pos] && ns[pos].next == Successor(ns, pos + 1)
    requires q.head == if pos == 0 then ns[1] else ns[0]
    requires q.tail == if pos + 2 == |ns| then ns[pos] else ns[|ns| - 1]
    requires q.Repr == {q} + Elements(ns) && q.size == |ns|
    requires q.nodes == SwapNext(ns, pos)
    ensures q.Valid()
  {
    SwappedChain(q.head, ns, pos);
    SwapNextAt(ns, pos);
  }

  /**
   * One pass of the inner loop of `q_sort_slow`, corrected: walk the chain
   * from the head for at most `remaining` steps, exchanging each neighbour
   * pair that is out of order and then comparing the larger node, which has
   * moved one place on, with its new successor.
   */
  method ExchangePass(q: Queue, remaining: int)
    requires q.Valid()
    modifies q.Repr
    ensures q.Valid() && q.Repr == old(q.Repr)
    ensures q.nodes == Pass(old(q.nodes), 0, remaining)
  {
    ghost var n := |q.nodes|;
    ghost var start := q.nodes;
    var curr := q.head;
    var prev: Node? := null;
    var iter := 0;
    ghost var pos := 0;
    while curr != null
      invariant q.Valid() && q.Repr == old(q.Repr) && |q.nodes| == n
      invariant 0 <= pos <= n && iter == pos
      invariant curr == if pos < n then q.nodes[pos] else null
      invariant prev == if pos == 0 then null else q.nodes[pos - 1]
      invariant Pass(q.nodes, pos, remaining) == Pass(start, 0, remaining)
      decreases n - pos
    {
      iter := iter + 1;
      if iter > remaining {
        PassStop(q.nodes, pos, remaining);
        return;
      }
      ghost var before := q.nodes;
      assert curr.next == Successor(before, pos);
      if curr.next != null && Compare(curr.value, curr.next.value) > 0 {
        var nxt := curr.next;
        PassSwapStep(before, pos, remaining);
        Exchange(q, prev, curr, pos);
        SwapNextAt(before, pos);
        prev := nxt;
      } else {
        PassKeepStep(before, pos, remaining);
        prev := curr;
        curr := curr.next;
      }
      pos := pos + 1;
    }
    PassStop(q.nodes, pos, remaining);
  }

  /**
   * `q_sort_slow`, corrected: `remaining` passes from the queue's size down
   * to 1. The result is the corrected exchange sort of the chain, which
   * `SortSpec.BubbleSortSorted` and `SortSpec.BubbleSortPermutes` show to be
   * ordered by strcmp and to hold the same nodes.
   */
  method SortSlow(q: Queue?)
    requires q != null ==> q.Valid()
    modifies if q == null then {} else q.Repr
    ensures q != null ==> q.Valid() && q.Repr == old(q.Repr)
    ensures q != null ==> q.nodes == BubbleSort(old(q.nodes))
  {
    if q != null {
      var remaining := q.size;
      while remaining > 0
        invariant q.Valid() && q.Repr == old(q.Repr)
        invariant remaining >= 0
        invariant Passes(q.nodes, remaining) == BubbleSort(old(q.nodes))
      {
        PassesStep(q.nodes, remaining);
        ExchangePass(q, remaining);
        remaining := remaining - 1;
      }
    }
  }

  /**
   * One pass of the inner loop of `q_sort_slow` as written: after an
   * exchange, `curr` has moved one place on and is advanced once more, so
   * the pair just behind it is never compared.
   */
  method ExchangePassAsWritten(q: Queue, remaining: int)
    requires q.Valid()
    modifies q.Repr
    ensures q.Valid() && q.Repr == old(q.Repr)
    ensures q.nodes == PassAsWritten(old(q.nodes), 0, 0, remaining)
  {
    ghost var n := |q.nodes|;
    ghost var start := q.nodes;
    var curr := q.head;
    var prev: Node? := null;
    var iter := 0;
    ghost var pos := 0;
    while curr != null
      invariant q.Valid() && q.Repr == old(q.Repr) && |q.nodes| == n
      invariant 0 <= iter <= pos <= n
      invariant curr == if pos < n then q.nodes[pos] else null
      invariant prev == if pos == 0 then null else q.nodes[pos - 1]
      invariant PassAsWritten(q.nodes, pos, iter, remaining) == PassAsWritten(start, 0, 0, remaining)
      decreases n - pos
    {
      iter := iter + 1;
      if iter > remaining {
        PassAsWrittenStop(q.nodes, pos, iter - 1, remaining);
        return;
      }
      ghost var before := q.nodes;
      assert curr.next == Successor(before, pos);
      if curr.next != null && Compare(curr.value, curr.next.value) > 0 {
        PassAsWrittenSwapStep(before, pos, iter - 1, remaining);
        Exchange(q, prev, curr, pos);
        SwapNextAt(before, pos);
        pos := pos + 1;
      } else {
        PassAsWrittenKeepStep(before, pos, iter - 1, remaining);
      }
      assert curr == q.nodes[pos] && curr.next == Successor(q.nodes, pos);
      prev := curr;
      curr := curr.next;
      pos := pos + 1;
    }
    PassAsWrittenStop(q.nodes, pos, iter, remaining);
  }

  /**
   * `q_sort_slow` as written. `SortSpec.SortSlowAsWrittenUnsorted` shows an
   * input whose result is out of order.
   */
  method SortSlowAsWritten(q: Queue?)
    requires q != null ==> q.Valid()
    modifies if q == null then {} else q.Repr
    ensures q != null ==> q.Valid() && q.Repr == old(q.Repr)
    ensures q != null ==> q.nodes == SortSpec.SortSlowAsWritten(old(q.nodes))
  {
    if q != null {
      var remaining := q.size;
      while remaining > 0
        invariant q.Valid() && q.Repr == old(q.Repr)
        invariant remaining >= 0
        invariant PassesAsWritten(q.nodes, remaining) == SortSpec.SortSlowAsWritten(old(q.nodes))
      {
        PassesAsWrittenStep(q.nodes, remaining);
        ExchangePassAsWritten(q, remaining);
        remaining := remaining - 1;
      }
    }
  }

  /** One step of the merge: the node taken next, then the merge of what is left. */
  lemma MergeCons(done: seq<Node>, xs: seq<Node>, ys: seq<Node>)
    requires xs != [] && ys != []
    ensures Compare(xs[0].value, ys[0].value) > 0 ==> done + Merge(xs, ys) == (done + [ys[0]]) + Merge(xs, ys[1..])
    ensures Compare(xs[0].value, ys[0].value) <= 0 ==> done + Merge(xs, ys) == (done + [xs[0]]) + Merge(xs[1..], ys)
  {
  }

  /**
   * While `join_result` runs, the node it linked last is none of the nodes
   * still waiting in either input, and no other node already linked: `m`,
   * without repetitions, is the linked nodes `done` followed by a
   * rearrangement `r` of the waiting ones.
   */
  lemma Separate(m: seq<Node>, done: seq<Node>, r: seq<Node>, xs: seq<Node>, ys: seq<Node>)
    requires Distinct(m) && m == done + r && multiset(r) == multiset(xs + ys) && done != []
    ensures forall k :: 0 <= k < |xs| ==> xs[k] != done[|done| - 1]
    ensures forall k :: 0 <= k < |ys| ==> ys[k] != done[|done| - 1]
    ensures forall k :: 0 <= k < |done| - 1 ==> done[k] != done[|done| - 1]
  {
    var a := |done| - 1;
    DistinctAt(m, a);
    assert m[a] == done[a];
    forall k | 0 <= k < |done| - 1 ensures done[k] != done[a] {
      assert m[k] == done[k];
    }
    forall x | x in xs + ys ensures x != done[a] {
      assert x in multiset(r);
      var p :| 0 <= p < |r| && r[p] == x;
      assert m[|done| + p] == x;
    }
    forall k | 0 <= k < |xs| ensures xs[k] != done[a] {
      assert xs[k] in xs + ys;
    }
    forall k | 0 <= k < |ys| ensures ys[k] != done[a] {
      assert ys[k] in xs + ys;
    }
  }

  /** Every node of the merge comes from one of the two inputs. */
  lemma MergeFrom(m: seq<Node>, done: seq<Node>, xs: seq<Node>, ys: seq<Node>, fs: seq<Node>, ss: seq<Node>)
    requires m == Merge(fs, ss) && done != [] && |done| <= |m| && done == m[..|done|]
    ensures done[|done| - 1] in fs || done[|done| - 1] in ss
  {
    var x := done[|done| - 1];
    MergePermutes(fs, ss);
    assert x == m[|done| - 1];
    assert x in multiset(fs + ss);
    assert x in fs + ss;
  }

  /** Linking the last node of `done` to the rest of one input completes the chain. */
  lemma ChainJoin(done: seq<Node>, xs: seq<Node>)
    requires done != [] && Distinct(done + xs)
    requires forall k {:trigger Successor(done, k)} :: 0 <= k < |done| - 1 ==> done[k].next == Successor(done, k)
    requires done[|done| - 1].next == (if xs == [] then null else xs[0])
    requires forall k {:trigger Successor(xs, k)} :: 0 <= k < |xs| ==> xs[k].next == Successor(xs, k)
    ensures IsChain(done[0], done + xs)
  {
    var s := done + xs;
    forall k | 0 <= k < |s| ensures s[k].next == Successor(s, k) {
      if k < |done| - 1 {
        assert s[k] == done[k] && done[k].next == Successor(done, k);
      } else if k >= |done| {
        assert s[k] == xs[k - |done|] && xs[k - |done|].next == Successor(xs, k - |done|);
      }
    }
  }

  /** Linking the last node of `done` to `n` extends the links to `done + [n]`. */
  lemma ExtendLinks(done: seq<Node>, n: Node)
    requires forall k {:trigger Successor(done, k)} :: 0 <= k < |done| - 1 ==> done[k].next == Successor(done, k)
    requires done != [] ==> done[|done| - 1].next == n
    ensures forall k {:trigger Successor(done + [n], k)} :: 0 <= k < |done| ==> (done + [n])[k].next == Successor(done + [n], k)
    ensures (done + [n])[0] == (if done == [] then n else done[0]) && (done + [n])[|done|] == n
  {
    forall k | 0 <= k < |done| ensures (done + [n])[k].next == Successor(done + [n], k) {
      if k < |done| - 1 {
        assert done[k].next == Successor(done, k);
      }
    }
  }

  /** Two chains without repetitions that share no node make one sequence without repetitions. */
  lemma DisjointConcat(xs: seq<Node>, ys: seq<Node>)
    requires Distinct(xs) && Distinct(ys) && Elements(xs) !! Elements(ys)
    ensures Distinct(xs + ys)
  {
    var s := xs + ys;
    DistinctIff(xs);
    DistinctIff(ys);
    DistinctIff(s);
    forall a, b | 0 <= a < b < |s|
      ensures s[a] != s[b]
    {
      if a < |xs| && b >= |xs| {
        assert s[a] in Elements(xs) && s[b] in Elements(ys);
      }
    }
  }

  /**
   * Once `join_result` has linked `done`, the node it linked last comes from
   * one of the inputs and is none of the nodes still waiting in `xs` or
   * `ys`, and no other node already linked.
   */
  lemma LastLinked(m: seq<Node>, done: seq<Node>, xs: seq<Node>, ys: seq<Node>, fs: seq<Node>, ss: seq<Node>)
    requires Distinct(m) && m == Merge(fs, ss) && m == done + Merge(xs, ys) && done != []
    ensures forall k :: 0 <= k < |xs| ==> xs[k] != done[|done| - 1]
    ensures forall k :: 0 <= k < |ys| ==> ys[k] != done[|done| - 1]
    ensures forall k :: 0 <= k < |done| - 1 ==> done[k] != done[|done| - 1]
    ensures done[|done| - 1] in fs || done[|done| - 1] in ss
  {
    MergePermutes(xs, ys);
    Separate(m, done, Merge(xs, ys), xs, ys);
    assert done == m[..|done|];
    MergeFrom(m, done, xs, ys, fs, ss);
  }

  /** Merging two chains that share no node repeats no node. */
  lemma MergeDistinct(fs: seq<Node>, ss: seq<Node>)
    requires Distinct(fs) && Distinct(ss) && Elements(fs) !! Elements(ss)
    ensures Distinct(Merge(fs, ss))
  {
    DisjointConcat(fs, ss);
    MergePermutes(fs, ss);
    PermutationDistinct(fs + ss, Merge(fs, ss));
  }

  /**
   * `join_result`: splices two null-terminated chains into one by relinking,
   * taking the head of `second` only when the head of `first` compares
   * strictly above it (a tie takes `first`), and linking what is left of
   * either chain at the end. The result is linked in the order of
   * `SortSpec.Merge`, which `SortSpec.MergeSorted`, `SortSpec.MergePermutes`
   * and `SortSpec.MergeStable` show to be ordered, to hold the nodes of both
   * chains, and to be stable.
   */
  method JoinResult(first: Node?, second: Node?, ghost fs: seq<Node>, ghost ss: seq<Node>) returns (head: Node?)
    requires IsChain(first, fs) && IsChain(second, ss) && Elements(fs) !! Elements(ss)
    modifies fs, ss
    ensures IsChain(head, Merge(fs, ss))
  {
    if first == null {
      return second;
    }
    if second == null {
      return first;
    }
    ghost var m := Merge(fs, ss);
    MergeDistinct(fs, ss);
    var first, second := first, second;
    head := null;
    var curr: Node? := null;
    ghost var done: seq<Node> := [];
    ghost var xs, ys := fs, ss;
    while first != null && second != null
      invariant IsChain(first, xs) && IsChain(second, ys)
      invariant xs != [] || ys != []
      invariant done == [] ==> xs != [] && ys != []
      invariant m == done + Merge(xs, ys)
      invariant head == (if done == [] then null else done[0])
      invariant curr == (if done == [] then null else done[|done| - 1])
      invariant forall k {:trigger Successor(done, k)} :: 0 <= k < |done| - 1 ==> done[k].next == Successor(done, k)
      decreases |xs| + |ys|
    {
      MergeCons(done, xs, ys);
      if done != [] {
        LastLinked(m, done, xs, ys, fs, ss);
      }
      if Compare(first.value, second.value) > 0 {
        if head == null {
          head := second;
          curr := head;
        } else {
          curr.next := second;
          curr := curr.next;
        }
        DropChain(ys);
        ExtendLinks(done, ys[0]);
        second := second.next;
        done, ys := done + [ys[0]], ys[1..];
      } else {
        if head == null {
          head := first;
          curr := head;
        } else {
          curr.next := first;
          curr := curr.next;
        }
        DropChain(xs);
        ExtendLinks(done, xs[0]);
        first := first.next;
        done, xs := done + [xs[0]], xs[1..];
      }
    }
    LastLinked(m, done, xs, ys, fs, ss);
    if first != null {
      curr.next := first;
      ChainJoin(done, xs);
    }
    if second != null {
      curr.next := second;
      ChainJoin(done, ys);
    }
  }

  /**
   * Cutting the link after position `k - 1` leaves two chains: the first `k`
   * nodes and the rest.
   */
  lemma CutChain(ns: seq<Node>, k: int)
    requires Distinct(ns) && 0 < k < |ns|
    requires forall i {:trigger Successor(ns, i)} :: 0 <= i < |ns| && i != k - 1 ==> ns[i].next == Successor(ns, i)
    requires ns[k - 1].next == null
    ensures IsChain(ns[0], ns[..k]) && IsChain(ns[k], ns[k..])
  {
    var a, b := ns[..k], ns[k..];
    assert ns == a + b;
    DistinctIff(ns);
    DistinctIff(a);
    DistinctIff(b);
    assert NoRepeats(a) && NoRepeats(b);
    forall i | 0 <= i < |a|
      ensures a[i].next == Successor(a, i)
    {
      if i < k - 1 {
        assert ns[i].next == Successor(ns, i);
      }
    }
    forall i | 0 <= i < |b|
      ensures b[i].next == Successor(b, i)
    {
      assert ns[k + i].next == Successor(ns, k + i);
    }
  }

  /**
   * `list_merge_sort`: a chain of `size` nodes is split after its first
   * `size / 2` nodes, both halves are sorted recursively and the results are
   * merged by `join_result`. The nodes end up linked in the order of
   * `SortSpec.MergeSort`, which `SortSpec.MergeSortSorted` and
   * `SortSpec.MergeSortPermutes` show to be ordered and to hold the same nodes.
   */
  method ListMergeSort(head: Node?, size: int, ghost ns: seq<Node>) returns (r: Node?)
    requires IsChain(head, ns) && size == |ns|
    modifies Elements(ns)
    ensures IsChain(r, MergeSort(ns))
    decreases size
  {
    if size < 2 {
      return head;
    }
    var firstsz := size / 2;
    var secondsz := size - firstsz;
    var second := head;
    var i := 0;
    while i < firstsz - 1
      invariant 0 <= i <= firstsz - 1
      invariant second == ns[i]
    {
      assert second.next == Successor(ns, i);
      second := second.next;
      i := i + 1;
    }
    var tmp := second;
    assert second.next == Successor(ns, firstsz - 1);
    second := second.next;
    DistinctAt(ns, firstsz - 1);
    tmp.next := null;
    CutChain(ns, firstsz);
    ghost var left, right := ns[..firstsz], ns[firstsz..];
    SplitDisjoint(ns, firstsz);
    var outfirst := ListMergeSort(head, firstsz, left);
    forall i | 0 <= i < |right|
      ensures right[i].next == Successor(right, i)
    {
      assert right[i] in Elements(right);
    }
    MergeSortPermutes(left);
    PermutationElements(left, MergeSort(left));
    ghost var sortedLeft := MergeSort(left);
    assert Elements(sortedLeft) !! Elements(right);
    var outsecond := ListMergeSort(second, secondsz, right);
    forall i | 0 <= i < |sortedLeft|
      ensures sortedLeft[i].next == Successor(sortedLeft, i)
    {
      assert sortedLeft[i] in Elements(sortedLeft);
    }
    MergeSortPermutes(right);
    PermutationElements(right, MergeSort(right));
    r := JoinResult(outfirst, outsecond, MergeSort(left), MergeSort(right));
  }

  /** The merge sorted sequence has the same length and the same nodes. */
  lemma SortedNodesSame(ns: seq<Node>)
    ensures |MergeSort(ns)| == |ns| && Elements(MergeSort(ns)) == Elements(ns)
  {
    MergeSortPermutes(ns);
    PermutationElements(ns, MergeSort(ns));
    assert |MergeSort(ns)| == |multiset(MergeSort(ns))|;
  }

  /**
   * `q_sort`: a queue of at least 200 nodes is merge sorted, its head set to
   * the result and its tail found by walking to the end; a queue of 2 to 199
   * nodes is exchange sorted (corrected); anything else is left alone.
   * `SortSpec.QSortCorrect` shows the result ordered, holding the same nodes,
   * and keeping nodes with equal strings in their original order.
   */
  method Sort(q: Queue?)
    requires q != null ==> q.Valid()
    modifies if q == null then {} else q.Repr
    ensures q != null ==> q.Valid() && q.Repr == old(q.Repr)
    ensures q != null ==> q.nodes == QSort(old(q.nodes))
  {
    if q != null && q.head != null {
      if q.size >= 200 {
        ghost var old_nodes := q.nodes;
        var result := ListMergeSort(q.head, q.size, q.nodes);
        ghost var ns := MergeSort(old_nodes);
        SortedNodesSame(old_nodes);
        q.head := result;
        ghost var k := 0;
        while result != null
          invariant 0 <= k <= |ns| && IsChain(q.head, ns)
          invariant q.Repr == old(q.Repr) == {q} + Elements(ns) && q.size == |ns|
          invariant result == if k < |ns| then ns[k] else null
          invariant k > 0 ==> q.tail == ns[k - 1]
          decreases |ns| - k
        {
          q.tail := result;
          assert result.next == Successor(ns, k);
          result := result.next;
          k := k + 1;
        }
        q.nodes := ns;
      } else if q.size >= 2 {
        SortSlow(q);
      }
    }
  }
}
