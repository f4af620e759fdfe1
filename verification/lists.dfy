/**
 * The element type of queue.c (`list_ele_t`) and the vocabulary used to
 * describe a null-terminated chain of elements by the ghost sequence of its
 * nodes, in link order.
 */
module Lists {
  import opened Strcmp

  /**
   * One queue element. The C code fills in `value` once, when the element is
   * created, and never assigns it again: the sorts move nodes by relinking
   * them, so the string is a constant of the node here.
   */
  class Node {
    const value: string
    var next: Node?

    constructor (s: string)
      ensures value == s && next == null
    {
      value := s;
      next := null;
    }
  }

  /** The objects of a node sequence, as a frame. */
  ghost function Elements(ns: seq<Node>): set<Node> {
    set n | n in ns
  }

  /** The strings of a node sequence, in order. */
  ghost function Values(ns: seq<Node>): seq<string> {
    seq(|ns|, i requires 0 <= i < |ns| => ns[i].value)
  }

  lemma ValuesAppend(ns: seq<Node>, e: Node)
    ensures Values(ns + [e]) == Values(ns) + [e.value]
  {
  }

  lemma ValuesPrepend(e: Node, ns: seq<Node>)
    ensures Values([e] + ns) == [e.value] + Values(ns)
  {
  }

  lemma ValuesDrop(ns: seq<Node>)
    requires ns != []
    ensures Values(ns[1..]) == Values(ns)[1..] && Values(ns)[0] == ns[0].value
  {
  }

  /**
   * No element occurs twice. Stated one element at a time, so that the
   * verifier unfolds it only as far as a proof asks; `DistinctIff` gives the
   * pairwise form and `DistinctAt` one element's part of it.
   */
  ghost predicate Distinct<T>(s: seq<T>) {
    s == [] || (s[0] !in s[1..] && Distinct(s[1..]))
  }

  /** No element occurs twice, stated pair by pair. */
  ghost predicate NoRepeats<T>(s: seq<T>) {
    forall i, j :: 0 <= i < j < |s| ==> s[i] != s[j]
  }

  /** The two ways of saying that no element occurs twice agree. */
  lemma {:induction false} DistinctIff<T>(s: seq<T>)
    ensures Distinct(s) <==> NoRepeats(s)
  {
    if s != [] {
      DistinctIff(s[1..]);
      if NoRepeats(s) {
        assert NoRepeats(s[1..]);
        assert s[0] !in s[1..] by {
          forall k | 0 <= k < |s[1..]| ensures s[1..][k] != s[0] {
            assert s[1..][k] == s[k + 1];
          }
        }
      }
      if Distinct(s) {
        forall i, j | 0 <= i < j < |s| ensures s[i] != s[j] {
          if i == 0 {
            assert s[j] == s[1..][j - 1];
          } else {
            assert s[i] == s[1..][i - 1] && s[j] == s[1..][j - 1];
          }
        }
      }
    }
  }

  /** In a sequence without repetitions, no other position holds `s[p]`. */
  lemma DistinctAt<T>(s: seq<T>, p: int)
    requires Distinct(s) && 0 <= p < |s|
    ensures forall k :: 0 <= k < |s| && k != p ==> s[k] != s[p]
  {
    DistinctIff(s);
  }

  /** The link that follows position `i` in a well-formed chain of `ns`. */
  ghost function Successor(ns: seq<Node>, i: int): Node?
    requires 0 <= i < |ns|
  {
    if i + 1 < |ns| then ns[i + 1] else null
  }

  /** The link that position `i` holds once the chain of `ns` is turned around. */
  ghost function Predecessor(ns: seq<Node>, i: int): Node?
    requires 0 <= i < |ns|
  {
    if i == 0 then null else ns[i - 1]
  }

  /**
   * Following `next` from `h` visits exactly the nodes of `ns`, each once,
   * and then reaches null.
   */
  ghost predicate IsChain(h: Node?, ns: seq<Node>)
    reads ns
  {
    && Distinct(ns)
    && h == (if ns == [] then null else ns[0])
    && forall i {:trigger Successor(ns, i)} :: 0 <= i < |ns| ==> ns[i].next == Successor(ns, i)
  }

  /** Non-decreasing in strcmp order. */
  ghost predicate Sorted(s: seq<string>) {
    forall i, j :: 0 <= i < j < |s| ==> Leq(s[i], s[j])
  }

  /** The elements of `s` in the opposite order. */
  function Reverse<T>(s: seq<T>): seq<T> {
    if s == [] then [] else Reverse(s[1..]) + [s[0]]
  }

  /** Position `k` of the reversal holds the element at the mirrored position. */
  lemma {:induction false} ReverseAt<T>(s: seq<T>, k: int)
    requires 0 <= k < |s|
    ensures |Reverse(s)| == |s|
    ensures Reverse(s)[k] == s[|s| - 1 - k]
  {
    if k < |s| - 1 {
      ReverseAt(s[1..], k);
    } else {
      ReverseLength(s[1..]);
    }
  }

  lemma {:induction false} ReverseLength<T>(s: seq<T>)
    ensures |Reverse(s)| == |s|
  {
    if s != [] {
      ReverseLength(s[1..]);
    }
  }

  /** Reversing twice gives back the original sequence. */
  lemma ReverseInvolution<T>(s: seq<T>)
    ensures Reverse(Reverse(s)) == s
  {
    ReverseLength(s);
    ReverseLength(Reverse(s));
    forall k | 0 <= k < |s|
      ensures Reverse(Reverse(s))[k] == s[k]
    {
      ReverseAt(Reverse(s), k);
      ReverseAt(s, |s| - 1 - k);
    }
  }

  /** Reversing the nodes reverses the strings they hold. */
  lemma ValuesReverse(ns: seq<Node>)
    ensures Values(Reverse(ns)) == Reverse(Values(ns))
  {
    ReverseLength(ns);
    ReverseLength(Values(ns));
    forall k | 0 <= k < |ns|
      ensures Values(Reverse(ns))[k] == Reverse(Values(ns))[k]
    {
      ReverseAt(ns, k);
      ReverseAt(Values(ns), k);
    }
  }

  /** A sequence without repetitions holds each element at most once. */
  lemma {:induction false} DistinctCount<T>(s: seq<T>, x: T)
    requires Distinct(s)
    ensures multiset(s)[x] <= 1
  {
    if s != [] {
      assert s == [s[0]] + s[1..];
      DistinctCount(s[1..], x);
    }
  }

  /** Rearranging a sequence without repetitions creates none. */
  lemma PermutationDistinct<T>(a: seq<T>, b: seq<T>)
    requires Distinct(a) && multiset(a) == multiset(b)
    ensures Distinct(b)
  {
    DistinctIff(b);
    forall i, j | 0 <= i < j < |b|
      ensures b[i] != b[j]
    {
      assert b == b[..j] + b[j..];
      assert b[i] in multiset(b[..j]) && b[j] in multiset(b[j..]);
      assert multiset(b)[b[i]] == multiset(b[..j])[b[i]] + multiset(b[j..])[b[i]];
      DistinctCount(a, b[i]);
    }
    assert NoRepeats(b);
  }

  /** Adding an element that is not there yet, at the end, creates no repetition. */
  lemma DistinctAppend<T>(s: seq<T>, x: T)
    requires Distinct(s) && x !in s
    ensures Distinct(s + [x])
  {
    assert ([x] + s)[1..] == s;
    assert multiset([x] + s) == multiset(s + [x]);
    PermutationDistinct([x] + s, s + [x]);
  }

  /** A rearrangement has the same nodes. */
  lemma PermutationElements(a: seq<Node>, b: seq<Node>)
    requires multiset(a) == multiset(b)
    ensures Elements(a) == Elements(b)
  {
    forall n | n in a ensures n in b {
      assert n in multiset(a);
    }
    forall n | n in b ensures n in a {
      assert n in multiset(b);
    }
  }

  /** The two parts of a split sequence without repetitions share no node. */
  lemma SplitDisjoint(ns: seq<Node>, k: int)
    requires Distinct(ns) && 0 <= k <= |ns|
    ensures Elements(ns[..k]) !! Elements(ns[k..])
    ensures Elements(ns[..k]) + Elements(ns[k..]) == Elements(ns)
  {
    DistinctIff(ns);
    assert ns == ns[..k] + ns[k..];
    forall n | n in ns ensures n in ns[..k] || n in ns[k..] {
      var i :| 0 <= i < |ns| && ns[i] == n;
      if i < k { assert ns[..k][i] == n; } else { assert ns[k..][i - k] == n; }
    }
  }
}
