/**
 * The queue of queue.c: `head`, `tail` and `size` over a null-terminated
 * chain of nodes, and the operations that change it in place. A null
 * `queue_t *` is a null `Queue?`; a failing `malloc` is a boolean the caller
 * supplies.
 */
module Queues {
  import opened Strcmp
  import opened Lists

  class Queue {
    var head: Node?
    var tail: Node?
    var size: int
    /** The nodes reachable from `head`, in link order. */
    ghost var nodes: seq<Node>
    ghost var Repr: set<object>

    /**
     * `size` counts the nodes reachable from `head`; `head` and `tail` are
     * null exactly when the queue is empty; `tail` is the last node, the one
     * whose `next` is null.
     */
    ghost predicate Valid()
      reads this, Repr
      ensures Valid() ==> this in Repr
    {
      && Repr == {this} + Elements(nodes)
      && IsChain(head, nodes)
      && size == |nodes|
      && tail == (if nodes == [] then null else nodes[|nodes| - 1])
    }

    /** The strings of the queue from head to tail. */
    ghost function Contents(): seq<string>
      reads this
    {
      Values(nodes)
    }

    /** `q_new` when its `malloc` succeeds. */
    constructor ()
      ensures Valid() && fresh(Repr)
      ensures nodes == [] && head == null && tail == null && size == 0
    {
      head, tail, size := null, null, 0;
      nodes := [];
      Repr := {this};
    }
  }

  /** The shape that `Valid` guarantees, spelled out. */
  lemma ValidShape(q: Queue)
    requires q.Valid()
    ensures q.head == null <==> q.size == 0
    ensures q.tail == null <==> q.size == 0
    ensures q.size == 1 ==> q.head == q.tail
    ensures q.tail != null ==> q.tail.next == null
    ensures forall n :: n in q.nodes && n != q.tail ==> n.next != null
  {
    forall n | n in q.nodes && n != q.tail
      ensures n.next != null
    {
      var i :| 0 <= i < |q.nodes| && q.nodes[i] == n;
      assert n.next == Successor(q.nodes, i);
    }
    if q.tail != null {
      assert q.tail.next == Successor(q.nodes, |q.nodes| - 1);
    }
  }

  /** `q_new`: an empty queue, or null when allocation fails. */
  method New(mallocSucceeds: bool) returns (q: Queue?)
    ensures q != null <==> mallocSucceeds
    ensures q != null ==> fresh(q.Repr) && q.Valid() && q.Contents() == []
    ensures q != null ==> q.head == null && q.tail == null && q.size == 0
  {
    if mallocSucceeds {
      q := new Queue();
    } else {
      q := null;
    }
  }

  /** `q_size`: the number of elements, 0 for a null queue. */
  method Size(q: Queue?) returns (n: int)
    requires q != null ==> q.Valid()
    ensures n == if q == null then 0 else |q.Contents()|
  {
    if q != null {
      return q.size;
    }
    return 0;
  }

  /**
   * `q_create_elem`: a new node holding a copy of `s`. It fails for a null
   * queue, when the node cannot be allocated, and when the copy of the string
   * cannot be allocated (the node is then released again).
   */
  method CreateElem(q: Queue?, s: string, nodeAllocated: bool, stringAllocated: bool)
    returns (ok: bool, e: Node?)
    ensures ok <==> q != null && nodeAllocated && stringAllocated
    ensures ok ==> e != null && fresh(e) && e.value == s && e.next == null
    ensures !ok ==> e == null
  {
    if q == null {
      return false, null;
    }
    if nodeAllocated {
      if stringAllocated {
        e := new Node(s);
        return true, e;
      } else {
        return false, null;
      }
    } else {
      return false, null;
    }
  }

  /** `q_insert_head`. */
  method InsertHead(q: Queue?, s: string, nodeAllocated: bool, stringAllocated: bool)
    returns (ok: bool)
    requires q != null ==> q.Valid()
    modifies if q == null then {} else q.Repr
    ensures ok <==> q != null && nodeAllocated && stringAllocated
    ensures q != null ==> q.Valid() && fresh(q.Repr - old(q.Repr))
    ensures ok ==> q.Contents() == [s] + old(q.Contents()) && q.size == old(q.size) + 1
    ensures ok ==> fresh(q.head) && q.head.next == old(q.head)
    ensures ok ==> q.nodes == [q.head] + old(q.nodes)
    ensures ok ==> q.tail == if old(q.head) == null then q.head else old(q.tail)
    ensures q != null && !ok ==> q.nodes == old(q.nodes) && unchanged(q.Repr)
  {
    var newelem;
    ok, newelem := CreateElem(q, s, nodeAllocated, stringAllocated);
    if ok {
      ghost var ns := q.nodes;
      if q.head == null {
        q.tail := newelem;
      }
      newelem.next := q.head;
      assert IsChain(newelem.next, ns);
      q.head := newelem;
      q.size := q.size + 1;
      q.nodes := [newelem] + ns;
      q.Repr := q.Repr + {newelem};
      PrependChain(newelem, ns);
      ValuesPrepend(newelem, ns);
    }
  }

  /** Linking a new node in front of a chain gives a chain one longer. */
  lemma PrependChain(e: Node, ns: seq<Node>)
    requires IsChain(e.next, ns) && e !in Elements(ns)
    ensures IsChain(e, [e] + ns)
    ensures Elements([e] + ns) == {e} + Elements(ns)
  {
    var r := [e] + ns;
    forall i | 0 <= i < |r|
      ensures r[i].next == Successor(r, i)
    {
      if i > 0 {
        assert r[i] == ns[i - 1] && ns[i - 1].next == Successor(ns, i - 1);
      }
    }
  }

  /** `q_insert_tail`: appends after the tail without walking the list. */
  method InsertTail(q: Queue?, s: string, nodeAllocated: bool, stringAllocated: bool)
    returns (ok: bool)
    requires q != null ==> q.Valid()
    modifies if q == null then {} else q.Repr
    ensures ok <==> q != null && nodeAllocated && stringAllocated
    ensures q != null ==> q.Valid() && fresh(q.Repr - old(q.Repr))
    ensures ok ==> q.Contents() == old(q.Contents()) + [s] && q.size == old(q.size) + 1
    ensures ok ==> fresh(q.tail) && (old(q.tail) != null ==> old(q.tail).next == q.tail)
    ensures ok ==> q.nodes == old(q.nodes) + [q.tail]
    ensures ok ==> q.head == if old(q.head) == null then q.tail else old(q.head)
    ensures q != null && !ok ==> q.nodes == old(q.nodes) && unchanged(q.Repr)
  {
    var newelem;
    ok, newelem := CreateElem(q, s, nodeAllocated, stringAllocated);
    if ok {
      ghost var ns := q.nodes;
      newelem.next := null;
      if q.head == null {
        q.head := newelem;
        q.tail := newelem;
      } else {
        DistinctAt(ns, |ns| - 1);
        q.tail.next := newelem;
        q.tail := newelem;
      }
      q.size := q.size + 1;
      q.nodes := ns + [newelem];
      q.Repr := q.Repr + {newelem};
      AppendChain(q.head, ns, newelem);
      ValuesAppend(ns, newelem);
    }
  }

  /**
   * Linking a new node after the last node of a chain gives a chain one
   * longer.
   */
  lemma AppendChain(h: Node?, ns: seq<Node>, e: Node)
    requires Distinct(ns) && e !in Elements(ns) && e.next == null
    requires forall i :: 0 <= i < |ns| - 1 ==> ns[i].next == Successor(ns, i)
    requires ns != [] ==> ns[|ns| - 1].next == e
    requires h == if ns == [] then e else ns[0]
    ensures IsChain(h, ns + [e])
    ensures Elements(ns + [e]) == Elements(ns) + {e}
  {
    var r := ns + [e];
    DistinctAppend(ns, e);
    forall i | 0 <= i < |r|
      ensures r[i].next == Successor(r, i)
    {
      if i < |ns| {
        assert r[i] == ns[i];
      }
    }
  }

  /**
   * `q_remove_head`. It fails, changing nothing, on a null or empty queue.
   * Otherwise it unlinks the head node and, when `sp` is given, copies the
   * node's string into `sp` with `strncpy(sp, value, bufsize)` and then
   * terminates it at `sp[bufsize - 1]`.
   */
  method RemoveHead(q: Queue?, sp: array?<char>, bufsize: int) returns (ok: bool)
    requires q != null ==> q.Valid()
    requires sp != null ==> 1 <= bufsize <= sp.Length
    modifies (if q == null then {} else q.Repr), sp
    ensures ok <==> q != null && old(q.size) > 0
    ensures q != null ==> q.Valid()
    ensures ok ==> q.Contents() == old(q.Contents())[1..] && q.size == old(q.size) - 1
    ensures ok ==> q.Repr == old(q.Repr) - {old(q.head)} && q.head == old(q.head.next)
    ensures ok ==> q.nodes == old(q.nodes)[1..]
    ensures ok ==> q.tail == if old(q.size) == 1 then null else old(q.tail)
    ensures ok && sp != null ==>
      var v := old(q.Contents())[0];
      var n := if |v| < bufsize - 1 then |v| else bufsize - 1;
      && sp[..n] == v[..n]
      && (forall k :: n <= k < bufsize ==> sp[k] == '\0')
      && sp[bufsize..] == old(sp[bufsize..])
    ensures !ok && sp != null ==> unchanged(sp)
    ensures q != null && !ok ==> q.nodes == old(q.nodes) && unchanged(q.Repr)
  {
    if q != null {
      if q.size > 0 {
        if q.tail == q.head {
          q.tail := null;
        }
        if sp != null {
          Strncpy(sp, q.head.value, bufsize);
          sp[bufsize - 1] := '\0';
        }
        var pasthead := q.head;
        q.head := q.head.next;
        q.size := q.size - 1;
        q.nodes := q.nodes[1..];
        q.Repr := q.Repr - {pasthead};
        DropChain(old(q.nodes));
        ValuesDrop(old(q.nodes));
        return true;
      } else {
        return false;
      }
    } else {
      return false;
    }
  }

  /** Unlinking the first node of a chain leaves a chain of the rest. */
  lemma DropChain(ns: seq<Node>)
    requires ns != [] && IsChain(ns[0], ns)
    ensures IsChain(ns[0].next, ns[1..])
    ensures Elements(ns[1..]) == Elements(ns) - {ns[0]}
  {
    var r := ns[1..];
    assert ns[0].next == Successor(ns, 0);
    forall i | 0 <= i < |r|
      ensures r[i].next == Successor(r, i)
    {
      assert r[i] == ns[i + 1] && ns[i + 1].next == Successor(ns, i + 1);
    }
    forall n | n in ns && n != ns[0]
      ensures n in r
    {
      var i :| 0 <= i < |ns| && ns[i] == n;
      assert r[i - 1] == n;
    }
  }

  /**
   * The release loop of `q_free`: it reaches every node of the queue exactly
   * once, in link order, and stops at the null after the tail. The nodes it
   * returns are the ones whose string and storage the C code frees.
   */
  method Free(q: Queue?) returns (released: seq<Node>)
    requires q != null ==> q.Valid()
    ensures released == if q == null then [] else q.nodes
  {
    var curr: Node?;
    if q != null {
      curr := q.head;
    } else {
      curr := null;
    }
    ghost var ns := if q == null then [] else q.nodes;
    released := [];
    while curr != null
      invariant |released| <= |ns| && released == ns[..|released|]
      invariant curr == if |released| < |ns| then ns[|released|] else null
      decreases |ns| - |released|
    {
      assert curr.next == Successor(ns, |released|);
      released := released + [curr];
      curr := curr.next;
    }
  }

  /**
   * `q_reverse`: one pass turns every link around, then `head` and `tail`
   * trade places. No node is created or dropped.
   */
  method Reverse(q: Queue?)
    requires q != null ==> q.Valid()
    modifies if q == null then {} else q.Repr
    ensures q != null ==> q.Valid() && q.Repr == old(q.Repr)
    ensures q != null ==> q.nodes == Lists.Reverse(old(q.nodes))
    ensures q != null ==> q.Contents() == Lists.Reverse(old(q.Contents()))
    ensures q != null ==> q.head == old(q.tail) && q.tail == old(q.head)
  {
    if q != null {
      ghost var ns := q.nodes;
      ReverseLinks(q.head, ns);
      var oldprev := q.head;
      q.head := q.tail;
      q.tail := oldprev;
      q.nodes := Lists.Reverse(ns);
      ReversedValid(q, ns);
      ValuesReverse(ns);
    }
  }

  /**
   * The loop of `q_reverse`: walking the chain from `h`, it points each
   * node's `next` at the node before it (null for the first).
   */
  method ReverseLinks(h: Node?, ghost ns: seq<Node>)
    requires IsChain(h, ns)
    modifies ns
    ensures forall i {:trigger Predecessor(ns, i)} :: 0 <= i < |ns| ==> ns[i].next == Predecessor(ns, i)
  {
    ghost var n := |ns|;
    ghost var k := 0;
    var curr, oldprev, oldnext := h, null, null;
    while curr != null
      invariant 0 <= k <= n
      invariant curr == if k < n then ns[k] else null
      invariant oldprev == if k == 0 then null else ns[k - 1]
      invariant forall i {:trigger Predecessor(ns, i)} :: 0 <= i < k ==> ns[i].next == Predecessor(ns, i)
      invariant forall i {:trigger Successor(ns, i)} :: k <= i < n ==> ns[i].next == Successor(ns, i)
      decreases n - k
    {
      DistinctAt(ns, k);
      assert curr.next == Successor(ns, k);
      oldnext := curr.next;
      curr.next := oldprev;
      oldprev := curr;
      curr := oldnext;
      k := k + 1;
    }
  }

  /** After `q_reverse` turned every link around, the queue is well formed again. */
  lemma ReversedValid(q: Queue, ns: seq<Node>)
    requires Distinct(ns) && q.Repr == {q} + Elements(ns) && q.size == |ns|
    requires forall i {:trigger Predecessor(ns, i)} :: 0 <= i < |ns| ==> ns[i].next == Predecessor(ns, i)
    requires q.head == (if ns == [] then null else ns[|ns| - 1])
    requires q.tail == (if ns == [] then null else ns[0])
    requires q.nodes == Lists.Reverse(ns)
    ensures q.Valid()
  {
    ReverseChain(ns);
  }

  /** The reversed node sequence, linked backwards, is a chain of the same nodes. */
  lemma ReverseChain(ns: seq<Node>)
    requires Distinct(ns)
    requires forall i {:trigger Predecessor(ns, i)} :: 0 <= i < |ns| ==> ns[i].next == Predecessor(ns, i)
    ensures |Lists.Reverse(ns)| == |ns|
    ensures IsChain(if ns == [] then null else ns[|ns| - 1], Lists.Reverse(ns))
    ensures Elements(Lists.Reverse(ns)) == Elements(ns)
    ensures ns != [] ==> Lists.Reverse(ns)[|ns| - 1] == ns[0]
  {
    var r := Lists.Reverse(ns);
    var n := |ns|;
    ReverseLength(ns);
    forall i | 0 <= i < n
      ensures r[i] == ns[n - 1 - i]
    {
      ReverseAt(ns, i);
    }
    forall i | 0 <= i < n
      ensures r[i].next == Successor(r, i)
    {
      var j := n - 1 - i;
      assert r[i] == ns[j];
      assert ns[j].next == Predecessor(ns, j);
      if i + 1 < n {
        assert r[i + 1] == ns[j - 1];
      }
    }
    DistinctIff(ns);
    DistinctIff(r);
    assert NoRepeats(r);
    forall x | x in r
      ensures x in ns
    {
      var i :| 0 <= i < n && r[i] == x;
    }
    forall x | x in ns
      ensures x in r
    {
      var i :| 0 <= i < n && ns[i] == x;
      assert r[n - 1 - i] == x;
    }
  }
}
