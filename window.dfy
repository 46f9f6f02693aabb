/** The detector's debounce window: a bounded double-ended queue whose
    append, once the queue is full, first drops the oldest element. */
module Window {

  function Min(a: nat, b: nat): nat { if a < b then a else b }

  /** The newest n elements of h, oldest first (all of h when it is shorter). */
  function Newest<T>(h: seq<T>, n: nat): seq<T>
  {
    h[|h| - Min(|h|, n)..]
  }

  /** Appending x to a window of capacity maxlen. */
  function Appended<T>(q: seq<T>, x: T, maxlen: nat): (r: seq<T>)
    requires 0 < maxlen && |q| <= maxlen
    ensures r == Newest(q + [x], maxlen)
  {
    if |q| < maxlen then q + [x] else q[1..] + [x]
  }

  /** The capacity invariant: the window never holds more than maxlen labels,
      grows by one until it is full, and then keeps its size. */
  lemma AppendedBounded<T>(q: seq<T>, x: T, maxlen: nat)
    requires 0 < maxlen && |q| <= maxlen
    ensures |Appended(q, x, maxlen)| <= maxlen
    ensures |Appended(q, x, maxlen)| == if |q| < maxlen then |q| + 1 else maxlen
  {
  }

  /** FIFO order: the new label is the newest element; on a full window the
      oldest one is gone and the rest keep their order; otherwise nothing is
      dropped. */
  lemma AppendedOrder<T>(q: seq<T>, x: T, maxlen: nat)
    requires 0 < maxlen && |q| <= maxlen
    ensures Appended(q, x, maxlen)[|Appended(q, x, maxlen)| - 1] == x
    ensures |q| == maxlen ==> Appended(q, x, maxlen)[..maxlen - 1] == q[1..]
    ensures |q| < maxlen ==> Appended(q, x, maxlen)[..|q|] == q
  {
  }

  /** A window that has only ever been appended to is the newest maxlen
      elements of everything appended since it was empty: appending to the
      newest part of a history equals taking the newest part of the longer
      history. */
  lemma {:induction false} AppendedNewest<T>(h: seq<T>, x: T, maxlen: nat)
    requires 0 < maxlen
    ensures Appended(Newest(h, maxlen), x, maxlen) == Newest(h + [x], maxlen)
  {
    var w := Newest(h, maxlen);
    var lhs := Appended(w, x, maxlen);
    var rhs := Newest(h + [x], maxlen);
    assert |lhs| == |rhs|;
    forall i | 0 <= i < |lhs|
      ensures lhs[i] == rhs[i]
    {
      if i < |lhs| - 1 {
        assert lhs[i] == (w + [x])[|w| + 1 - |lhs| + i];
      }
    }
  }
}
