/** Spreading a caption's time span over its chunks. Both the converter and the runtime
    grouper give chunk i of n the window from `startMs + floor(i * D / n)` to
    `startMs + floor((i + 1) * D / n)`, where D is the caption's duration. The source
    computes `D / n` in floating point first; here the boundary is the exact floor. */
module Timing {

  /** A window `[lo, hi)` in milliseconds. */
  datatype Span = Span(lo: int, hi: int)

  /** `floor(i * durationMs / n)`. For a positive divisor Dafny's `/` is the floor, also
      when the duration is negative. */
  function Offset(durationMs: int, n: nat, i: int): int
    requires n > 0
  {
    (i * durationMs) / n
  }

  /** The n windows that share `[startMs, endMs)` out by floor boundaries. */
  function Spans(startMs: int, endMs: int, n: nat): (spans: seq<Span>)
    ensures |spans| == n
  {
    seq(n, i requires 0 <= i < n =>
      Span(startMs + Offset(endMs - startMs, n, i), startMs + Offset(endMs - startMs, n, i + 1)))
  }

  /** The windows are contiguous and together run exactly from startMs to endMs. */
  predicate Tiles(spans: seq<Span>, startMs: int, endMs: int) {
    && |spans| > 0
    && spans[0].lo == startMs
    && spans[|spans| - 1].hi == endMs
    && forall i :: 0 <= i < |spans| - 1 ==> spans[i].hi == spans[i + 1].lo
  }

  /** Every window starts no later than it ends, and starts never go backwards. */
  predicate Ordered(spans: seq<Span>) {
    && (forall i :: 0 <= i < |spans| ==> spans[i].lo <= spans[i].hi)
    && (forall i, j :: 0 <= i <= j < |spans| ==> spans[i].lo <= spans[j].lo)
  }

  /** The sum of the window lengths. */
  function TotalLength(spans: seq<Span>): int {
    if spans == [] then 0 else (spans[0].hi - spans[0].lo) + TotalLength(spans[1..])
  }

  /** The last boundary is exact: `floor(n * D / n) == D`. */
  lemma OffsetLast(durationMs: int, n: nat)
    requires n > 0
    ensures Offset(durationMs, n, n) == durationMs
  {
    var q, r := (n * durationMs) / n, (n * durationMs) % n;
    assert n * durationMs == n * q + r && 0 <= r < n;
    assert n * (durationMs - q) == r;
    MultipleBelowDivisor(n, durationMs - q);
  }

  /** The only multiple of n in `[0, n)` is zero. */
  lemma MultipleBelowDivisor(n: int, k: int)
    requires n > 0 && 0 <= n * k < n
    ensures k == 0
  {
    MulBounds(n, k);
  }

  /** A non-zero multiple of n is at least n away from zero. */
  lemma MulBounds(n: int, k: int)
    requires n > 0
    ensures k >= 1 ==> n * k >= n
    ensures k <= -1 ==> n * k <= -n
  {
    if k >= 1 {
      assert n * k == n + n * (k - 1);
    } else if k <= -1 {
      assert n * k == -n + n * (k + 1);
    }
  }

  /** Floor division by a positive number is monotone. */
  lemma DivMonotone(a: int, b: int, n: int)
    requires n > 0 && a <= b
    ensures a / n <= b / n
  {
    var qa, qb := a / n, b / n;
    assert a == n * qa + a % n && b == n * qb + b % n;
    assert n * (qa - qb) == n * qa - n * qb;
    MulBounds(n, qa - qb);
  }

  /** For a non-negative duration the boundaries never go backwards. */
  lemma OffsetMonotone(durationMs: int, n: nat, i: int, j: int)
    requires n > 0 && durationMs >= 0 && i <= j
    ensures Offset(durationMs, n, i) <= Offset(durationMs, n, j)
  {
    assert i * durationMs <= j * durationMs by {
      assert (j - i) * durationMs >= 0;
      assert j * durationMs - i * durationMs == (j - i) * durationMs;
    }
    DivMonotone(i * durationMs, j * durationMs, n);
  }

  /** The floor windows of a caption tile its span: the first starts at startMs, each ends
      where the next starts, and the last ends exactly at endMs. */
  lemma SpansTile(startMs: int, endMs: int, n: nat)
    requires n > 0
    ensures Tiles(Spans(startMs, endMs, n), startMs, endMs)
  {
    OffsetLast(endMs - startMs, n);
  }

  /** When the caption does not end before it starts, every window is ordered and the
      window starts are non-decreasing. */
  lemma SpansOrdered(startMs: int, endMs: int, n: nat)
    requires startMs <= endMs
    ensures Ordered(Spans(startMs, endMs, n))
  {
    var spans := Spans(startMs, endMs, n);
    forall i, j | 0 <= i <= j < n
      ensures spans[i].lo <= spans[i].hi && spans[i].lo <= spans[j].lo
    {
      OffsetMonotone(endMs - startMs, n, i, i + 1);
      OffsetMonotone(endMs - startMs, n, i, j);
    }
  }

  /** The windows of a tiling add up to the whole span: no time is lost or counted twice. */
  lemma {:induction false} TilesTotal(spans: seq<Span>, startMs: int, endMs: int)
    requires Tiles(spans, startMs, endMs)
    ensures TotalLength(spans) == endMs - startMs
    decreases |spans|
  {
    if |spans| > 1 {
      TilesTotal(spans[1..], spans[1].lo, endMs);
    }
  }

  /** Every instant of the span lies in some window of a tiling. */
  lemma {:induction false} TilesCover(spans: seq<Span>, startMs: int, endMs: int, t: int)
    requires Tiles(spans, startMs, endMs) && startMs <= t < endMs
    ensures exists k :: 0 <= k < |spans| && spans[k].lo <= t < spans[k].hi
    decreases |spans|
  {
    if t >= spans[0].hi {
      TilesCover(spans[1..], spans[1].lo, endMs, t);
      var k :| 0 <= k < |spans| - 1 && spans[1..][k].lo <= t < spans[1..][k].hi;
      assert spans[k + 1].lo <= t < spans[k + 1].hi;
    }
  }
}
