/** The bounded live window: `collections.deque(maxlen=MAX_DATA_POINTS)` in
    python/main_gui.py, and the `tail(30)` selection in python/live_monitor.py. */
module LiveWindow {

  /** `MAX_DATA_POINTS`, also the `tail(30)` bound of the live monitor. */
  const MaxDataPoints: nat := 30

  /** The last `n` elements of `xs`, in order (all of them when there are fewer). */
  function Last<T>(xs: seq<T>, n: nat): (r: seq<T>)
    ensures |r| == if |xs| < n then |xs| else n
    ensures r == xs[|xs| - |r|..]
  {
    if |xs| <= n then xs else xs[|xs| - n..]
  }

  /** `deque.append(x)` on a deque built with `maxlen`: once the deque is
      full, the oldest element is discarded to make room. */
  function Append<T>(d: seq<T>, x: T, maxlen: nat): (r: seq<T>)
    requires |d| <= maxlen
    ensures |r| <= maxlen
    ensures r == Last(d + [x], maxlen)
  {
    if |d| < maxlen then d + [x]
    else if maxlen == 0 then d
    else d[1..] + [x]
  }

  /** Appending every element of `xs` in turn. */
  function AppendAll<T>(d: seq<T>, xs: seq<T>, maxlen: nat): (r: seq<T>)
    requires |d| <= maxlen
    ensures |r| <= maxlen
    decreases |xs|
  {
    if |xs| == 0 then d else AppendAll(Append(d, xs[0], maxlen), xs[1..], maxlen)
  }

  /** Keeping the last `n` of a prefix first changes nothing about the last `n` overall. */
  lemma {:induction false} LastOfLast<T>(a: seq<T>, b: seq<T>, n: nat)
    ensures Last(Last(a, n) + b, n) == Last(a + b, n)
  {
    var l := Last(a, n);
    var r1 := Last(l + b, n);
    var r2 := Last(a + b, n);
    assert |r1| == |r2|;
    forall i | 0 <= i < |r1|
      ensures r1[i] == r2[i]
    {
      var k := |l + b| - |r1| + i;
      if k < |l| {
        assert r1[i] == l[k] == a[|a| - |l| + k];
        assert r2[i] == (a + b)[|a + b| - |r2| + i];
      } else {
        assert r1[i] == b[k - |l|];
      }
    }
  }

  /** After any number of appends the deque holds exactly the last `maxlen`
      elements ever appended, oldest first. */
  lemma {:induction false} AppendAllKeepsLast<T>(d: seq<T>, xs: seq<T>, maxlen: nat)
    requires |d| <= maxlen
    ensures AppendAll(d, xs, maxlen) == Last(d + xs, maxlen)
    decreases |xs|
  {
    if |xs| == 0 {
      assert d + xs == d;
    } else {
      var d' := Append(d, xs[0], maxlen);
      calc {
        AppendAll(d, xs, maxlen);
        AppendAll(d', xs[1..], maxlen);
        { AppendAllKeepsLast(d', xs[1..], maxlen); }
        Last(Last(d + [xs[0]], maxlen) + xs[1..], maxlen);
        { LastOfLast(d + [xs[0]], xs[1..], maxlen); }
        Last(d + [xs[0]] + xs[1..], maxlen);
        { assert d + [xs[0]] + xs[1..] == d + xs; }
        Last(d + xs, maxlen);
      }
    }
  }
}
