/**
 * The string order used by queue.c: C's `strcmp`, of which only the sign of
 * the result matters to the queue. Characters compare by their code point and
 * a proper prefix compares below the longer string (its terminator is smaller
 * than any character).
 */
module Strcmp {

  /** The sign of `strcmp(a, b)`: -1, 0 or 1. */
  function Compare(a: string, b: string): (r: int)
    ensures -1 <= r <= 1
    ensures r == 0 <==> a == b
  {
    if |a| == 0 then (if |b| == 0 then 0 else -1)
    else if |b| == 0 then 1
    else if a[0] < b[0] then -1
    else if a[0] > b[0] then 1
    else
      var r := Compare(a[1..], b[1..]);
      assert a == [a[0]] + a[1..] && b == [b[0]] + b[1..];
      r
  }

  /** `a` may stay before `b` in a non-decreasing order (`strcmp(a, b) <= 0`). */
  predicate Leq(a: string, b: string) {
    Compare(a, b) <= 0
  }

  /** Swapping the arguments of strcmp flips the sign of its result. */
  lemma {:induction false} CompareAntisymmetric(a: string, b: string)
    ensures Compare(b, a) == -Compare(a, b)
  {
    if |a| > 0 && |b| > 0 && a[0] == b[0] {
      CompareAntisymmetric(a[1..], b[1..]);
    }
  }

  /** Any two strings are ordered one way or the other. */
  lemma LeqTotal(a: string, b: string)
    ensures Leq(a, b) || Leq(b, a)
    ensures !Leq(a, b) ==> Leq(b, a) && a != b
  {
    CompareAntisymmetric(a, b);
  }

  /** The order is transitive. */
  lemma {:induction false} LeqTransitive(a: string, b: string, c: string)
    requires Leq(a, b) && Leq(b, c)
    ensures Leq(a, c)
  {
    if |a| > 0 && |b| > 0 && |c| > 0 && a[0] == b[0] == c[0] {
      LeqTransitive(a[1..], b[1..], c[1..]);
    }
  }

  /**
   * `strncpy(dst, src, n)` for a string without an embedded NUL: the first
   * `n` characters of `dst` become those of `src`, padded with NULs when
   * `src` is shorter; the rest of `dst` is left alone. Note that nothing
   * terminates `dst` when `src` has `n` characters or more.
   */
  method Strncpy(dst: array<char>, src: string, n: int)
    requires 0 <= n <= dst.Length
    modifies dst
    ensures forall k :: 0 <= k < n && k < |src| ==> dst[k] == src[k]
    ensures forall k :: |src| <= k < n ==> dst[k] == '\0'
    ensures dst[n..] == old(dst[n..])
  {
    forall k | 0 <= k < n {
      dst[k] := if k < |src| then src[k] else '\0';
    }
  }
}
