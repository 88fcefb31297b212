/** The per-metric sample window of the monitoring agent: a FIFO of at most
    `Capacity` samples that drops its oldest sample when a new one arrives
    while it is full (drs-monitor/monitor.py, `queue.Queue(maxsize = 10)`
    with the `full()`/`get()`/`put()` sequence of each sampling loop), and the
    averaging over its newest samples done by `getCpuState` and friends. */
module MetricWindow {
  import opened Wrappers
  import opened Numeric

  const Capacity: nat := 10

  /** A window never holds more than `Capacity` samples. */
  type Window<T> = w: seq<T> | |w| <= Capacity

  function MinNat(a: nat, b: nat): nat
  {
    if a <= b then a else b
  }

  /** The last `n` elements of `s` (all of `s` if it is shorter). */
  function Latest<T>(s: seq<T>, n: nat): (r: seq<T>)
    ensures |r| == MinNat(n, |s|)
  {
    s[|s| - MinNat(n, |s|)..]
  }

  /** One iteration of a sampling loop: `if q.full(): q.get()` then `q.put(x)`. */
  function Push<T>(w: Window<T>, x: T): (r: Window<T>)
    ensures |r| == MinNat(|w| + 1, Capacity)
    ensures r[|r| - 1] == x
  {
    if |w| == Capacity then w[1..] + [x] else w + [x]
  }

  /** A push keeps the `Capacity` newest values: the full window loses its
      oldest sample and nothing else. */
  lemma PushKeepsLatest<T>(w: Window<T>, x: T)
    ensures Push(w, x) == Latest(w + [x], Capacity)
  {
  }

  /** Pushes `xs` in order. */
  function PushAll<T>(w: Window<T>, xs: seq<T>): Window<T>
    decreases |xs|
  {
    if |xs| == 0 then w else Push(PushAll(w, xs[..|xs| - 1]), xs[|xs| - 1])
  }

  /** A sequence no longer than `n` is its own newest `n` elements. */
  lemma LatestWhole<T>(s: seq<T>, n: nat)
    ensures |s| <= n ==> Latest(s, n) == s
  {
    assert s[0..] == s;
  }

  /** Taking the newest `n` elements after appending `t` only depends on the
      newest `n` elements before. */
  lemma LatestOfSuffix<T>(u: seq<T>, v: seq<T>, t: seq<T>, n: nat)
    requires |u| <= |v| && u == v[|v| - |u|..]
    requires |u| >= MinNat(n, |v|)
    ensures Latest(u + t, n) == Latest(v + t, n)
  {
    var k := MinNat(n, |u + t|);
    assert k == MinNat(n, |v + t|) by {
      if |u| < n { assert |u| == |v|; }
    }
    assert (u + t)[|u + t| - k..] == (v + t)[|v + t| - k..];
  }

  /** One more push keeps the newest values of the longer history. */
  lemma PushOntoLatest<T>(h: seq<T>, before: Window<T>, x: T)
    requires before == Latest(h, Capacity)
    ensures Push(before, x) == Latest(h + [x], Capacity)
  {
    PushKeepsLatest(before, x);
    LatestOfSuffix(before, h, [x], Capacity);
  }

  /** The window after any sequence of pushes holds exactly the `Capacity`
      most recent values of the whole arrival history, in arrival order. */
  lemma {:induction false} PushAllKeepsLatest<T>(w: Window<T>, xs: seq<T>)
    ensures PushAll(w, xs) == Latest(w + xs, Capacity)
    decreases |xs|
  {
    if |xs| == 0 {
      assert w + xs == w;
    } else {
      var ys, x := xs[..|xs| - 1], xs[|xs| - 1];
      PushAllKeepsLatest(w, ys);
      PushOntoLatest(w + ys, PushAll(w, ys), x);
      assert xs == ys + [x];
      assert w + xs == (w + ys) + [x];
    }
  }

  /** Starting from an empty window, the window is the last ten values
      pushed, in the order they were pushed. */
  lemma PushAllFromEmpty<T>(xs: seq<T>)
    ensures PushAll([], xs) == Latest(xs, Capacity)
    ensures |xs| <= Capacity ==> PushAll([], xs) == xs
  {
    var empty: Window<T> := [];
    assert PushAll(empty, xs) == Latest(xs, Capacity) by {
      PushAllKeepsLatest(empty, xs);
      assert empty + xs == xs;
    }
    LatestWhole(xs, Capacity);
  }

  /** Python's `w[-num:]`: the last `num` entries, or all of them when
      `num` exceeds the length -- and, since `-0 == 0`, the WHOLE window when
      `num == 0`. */
  function Recent<T>(w: seq<T>, num: nat): (r: seq<T>)
    ensures num > 0 ==> |r| == MinNat(num, |w|)
    ensures num == 0 ==> r == w
    ensures r == w[|w| - |r|..]
  {
    if num == 0 then w else Latest(w, num)
  }

  /** `getCpuState(num)` / `getMemState(num)`: the rounded mean of the newest
      `num` samples (of the whole window when `num` is 0 or exceeds its
      length); an empty window divides by zero. */
  function Average(w: seq<real>, num: nat): (r: Result<real, Fault>)
    ensures r.Success? <==> |w| > 0
    ensures r.Failure? ==> r.error == ZeroDivisionError
    ensures r.Success? ==> IsCents(r.value)
    ensures r.Success? && 0 < num <= |w| ==>
              r.value == Round2(Mean(w[|w| - num..]))
    ensures r.Success? && (num > |w| || num == 0) ==> r.value == Round2(Mean(w))
  {
    var recent := Recent(w, num);
    if |recent| == 0 then Failure(ZeroDivisionError)
    else Success(Round2(Mean(recent)))
  }

  /** If every sample lies in `[lo, hi]`, so does the average, up to the
      rounding of the bounds themselves. */
  lemma AverageWithinBounds(w: seq<real>, num: nat, lo: real, hi: real)
    requires |w| > 0
    requires forall i :: 0 <= i < |w| ==> lo <= w[i] <= hi
    ensures Round2(lo) <= Average(w, num).value <= Round2(hi)
  {
    var recent := Recent(w, num);
    assert forall i :: 0 <= i < |recent| ==> recent[i] == w[|w| - |recent| + i];
    MeanBounds(recent, lo, hi);
    Round2Monotone(lo, Mean(recent));
    Round2Monotone(Mean(recent), hi);
  }

  function Firsts(s: seq<(real, real)>): (r: seq<real>)
    ensures |r| == |s|
  {
    seq(|s|, i requires 0 <= i < |s| => s[i].0)
  }

  function Seconds(s: seq<(real, real)>): (r: seq<real>)
    ensures |r| == |s|
  {
    seq(|s|, i requires 0 <= i < |s| => s[i].1)
  }

  /** `getNetState(num)` / `getIOState(num)`: both components of the newest
      `num` pairs are split into two lists and averaged separately. */
  function PairAverage(w: seq<(real, real)>, num: nat): (r: Result<(real, real), Fault>)
    ensures r.Success? <==> |w| > 0
    ensures r.Failure? ==> r.error == ZeroDivisionError
    ensures r.Success? ==> IsCents(r.value.0) && IsCents(r.value.1)
  {
    var recent := Recent(w, num);
    if |recent| == 0 then Failure(ZeroDivisionError)
    else Success((Round2(Mean(Firsts(recent))), Round2(Mean(Seconds(recent)))))
  }

  /** Averaging pairs is averaging each component's window on its own, over
      the same newest entries. */
  lemma PairAverageComponentwise(w: seq<(real, real)>, num: nat)
    requires |w| > 0
    ensures PairAverage(w, num).value.0 == Average(Firsts(w), num).value
    ensures PairAverage(w, num).value.1 == Average(Seconds(w), num).value
  {
    var recent := Recent(w, num);
    assert Firsts(recent) == Recent(Firsts(w), num);
    assert Seconds(recent) == Recent(Seconds(w), num);
  }
}
