/**
 * The bounded double-ended queue the capture buffer is built on: a Python
 * `deque` created with `maxlen`, of which only `append` is used.
 */
module Deque {

  /**
   * `q.append(x)` on a deque of at most `maxlen` elements: the new element
   * goes to the right end and, when the deque is full, the leftmost (oldest)
   * element is discarded. The result is the longest suffix of `q + [x]` that
   * fits in `maxlen`.
   */
  function Append<T>(q: seq<T>, x: T, maxlen: nat): (r: seq<T>)
    requires |q| <= maxlen
    ensures |r| == if |q| < maxlen then |q| + 1 else maxlen
    ensures r == (q + [x])[|q| + 1 - |r|..]
  {
    if |q| < maxlen then q + [x]
    else if maxlen == 0 then []
    else q[1..] + [x]
  }

  /** The last `n` elements of the history `h`, in order (all of `h` when it is shorter). */
  function Window<T>(h: seq<T>, n: nat): seq<T>
  {
    if |h| <= n then h else h[|h| - n..]
  }

  /**
   * Appending to the window of a history gives the window of the extended
   * history: a deque fed one element at a time always holds the last
   * `maxlen` elements it was given, in arrival order.
   */
  lemma {:induction false} AppendKeepsWindow<T>(h: seq<T>, x: T, maxlen: nat)
    ensures |Window(h, maxlen)| <= maxlen
    ensures Append(Window(h, maxlen), x, maxlen) == Window(h + [x], maxlen)
  {
    var w := Window(h, maxlen);
    var h' := h + [x];
    if |h| < maxlen {
      assert w == h;
    } else {
      assert |w| == maxlen;
      assert w + [x] == h'[|h'| - maxlen - 1..];
      assert Append(w, x, maxlen) == (w + [x])[1..];
    }
  }
}
