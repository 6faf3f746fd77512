/**
  The piecewise linear interpolation of interpolation.py. Each core's
  readings are taken every 30 time units; consecutive readings k and k + 1
  are joined by the line through (30 k, data[i][k]) and
  (30 (k + 1), data[i][k + 1]). The lines that linear_interpolation writes,
  one per pair of consecutive readings of every core, are kept here as a
  list of segments, preceded by the header line that carries the global
  least-squares fit.
 */
module Interpolation {
  import opened Errors
  import opened MatrixMultiplication

  /** The line y = intercept + slope x. */
  datatype Line = Line(intercept: real, slope: real)

  function ValueAt(l: Line, x: real): real {
    l.intercept + l.slope * x
  }

  /** create_line: the slope from the two points, then the intercept from
      the first one; equal x values divide by zero. */
  function CreateLine(x0: real, x1: real, y0: real, y1: real): (r: Result<Line>)
    ensures r.Raise? <==> x1 == x0
    ensures r.Raise? ==> r.error == ZeroDivisionError
    ensures r.Ok? ==> ValueAt(r.value, x0) == y0 && ValueAt(r.value, x1) == y1
  {
    if x1 - x0 == 0.0 then Raise(ZeroDivisionError)
    else
      var slope := (y1 - y0) / (x1 - x0);
      assert slope * (x1 - x0) == y1 - y0;
      assert slope * x1 - slope * x0 == slope * (x1 - x0);
      assert ValueAt(Line(y0 - slope * x0, slope), x1) == y0 + (slope * x1 - slope * x0);
      Ok(Line(y0 - slope * x0, slope))
  }

  /** Two distinct x values fix the line: any line through both points is
      the one create_line builds. */
  lemma CreateLineIsUnique(l: Line, x0: real, x1: real, y0: real, y1: real)
    requires x0 != x1
    requires ValueAt(l, x0) == y0 && ValueAt(l, x1) == y1
    ensures CreateLine(x0, x1, y0, y1) == Ok(l)
  {
    var r := CreateLine(x0, x1, y0, y1).value;
    assert l.slope * x1 - l.slope * x0 == y1 - y0;
    assert r.slope * x1 - r.slope * x0 == y1 - y0;
    assert (r.slope - l.slope) * (x1 - x0) == 0.0;
    assert r.slope == l.slope;
    assert r.intercept == y0 - r.slope * x0 == l.intercept;
  }

  /** The points (0, 5) and (30, 35) give slope 1 and intercept 5. */
  lemma CreateLineExample()
    ensures CreateLine(0.0, 30.0, 5.0, 35.0) == Ok(Line(5.0, 1.0))
  {
    CreateLineIsUnique(Line(5.0, 1.0), 0.0, 30.0, 5.0, 35.0);
  }

  /** One interpolation line: `start <= x < end; y_index = line`. */
  datatype Segment = Segment(start: int, end: int, index: nat, line: Line)

  /** The header line: the interval `start <= x < end` of the least-squares
      approximation `fit`. */
  datatype Header = Header(start: int, end: int, fit: PhiHat)

  /** The sample time of reading k. */
  function SampleTime(k: nat): int {
    k * 30
  }

  /** The segment between readings k and k + 1 of one core. */
  function SegmentAt(row: seq<real>, k: nat): (s: Segment)
    requires k + 1 < |row|
    ensures s.start == SampleTime(k) && s.end == SampleTime(k + 1) && s.index == k
    ensures ValueAt(s.line, s.start as real) == row[k]
    ensures ValueAt(s.line, s.end as real) == row[k + 1]
  {
    var line := CreateLine(SampleTime(k) as real, SampleTime(k + 1) as real, row[k], row[k + 1]);
    Segment(SampleTime(k), SampleTime(k + 1), k, line.value)
  }

  /** `range(0, n - 1)` has n - 1 values, and none when n is 0. */
  function SegmentCount(n: nat): nat {
    if n == 0 then 0 else n - 1
  }

  /** The segments of one core whose first n readings are used. */
  function RowSegments(row: seq<real>, n: nat): (r: seq<Segment>)
    requires n <= |row|
    ensures |r| == SegmentCount(n)
    ensures forall k | 0 <= k < |r| :: r[k] == SegmentAt(row, k)
  {
    seq(SegmentCount(n), k requires 0 <= k < SegmentCount(n) => SegmentAt(row, k))
  }

  /** Every core has at least as many readings as the first one, which sets
      the number of segments; with no core, `data[0]` has nothing to read. */
  predicate Readable(data: seq<seq<real>>) {
    |data| >= 1 && forall i | 0 <= i < |data| :: |data[i]| >= |data[0]|
  }

  /** The segments of the first i cores, in the order they are written:
      n - 1 for each core. */
  function SegmentsUpTo(data: seq<seq<real>>, n: nat, i: nat): (r: seq<Segment>)
    requires i <= |data|
    requires forall c | 0 <= c < |data| :: |data[c]| >= n
    ensures |r| == i * SegmentCount(n)
  {
    if i == 0 then [] else SegmentsUpTo(data, n, i - 1) + RowSegments(data[i - 1], n)
  }

  /** Every segment linear_interpolation writes, core after core. */
  function Segments(data: seq<seq<real>>): (r: seq<Segment>)
    requires Readable(data)
    ensures |r| == |data| * SegmentCount(|data[0]|)
  {
    SegmentsUpTo(data, |data[0]|, |data|)
  }

  /** The header's interval runs from 0 to the last sample time. */
  function HeaderOf(data: seq<seq<real>>, fit: PhiHat): (h: Header)
    requires Readable(data)
    ensures h.start == 0 && h.end == (|data[0]| - 1) * 30 && h.fit == fit
    ensures |data[0]| >= 1 ==> h.end == SampleTime(|data[0]| - 1)
  {
    Header(0, (|data[0]| - 1) * 30, fit)
  }

  /** Where core c's k-th segment goes when every core contributes m. */
  function Position(c: nat, k: nat, m: nat): nat {
    c * m + k
  }

  /** Position k of block c, with blocks of m, lies before block i. */
  lemma BlockIndexBound(c: nat, k: nat, m: nat, i: nat)
    requires c < i && k < m
    ensures Position(c, k, m) < i * m
  {
    var d := i - c - 1;
    assert i * m == c * m + m + d * m;
    assert d * m >= 0;
  }

  /** Core c's k-th segment sits at position c (n - 1) + k of the output. */
  lemma {:induction false} SegmentsUpToLayout(data: seq<seq<real>>, n: nat, i: nat)
    requires i <= |data|
    requires forall c | 0 <= c < |data| :: |data[c]| >= n
    ensures forall c, k | 0 <= c < i && 0 <= k < SegmentCount(n) ::
      Position(c, k, SegmentCount(n)) < |SegmentsUpTo(data, n, i)|
      && SegmentsUpTo(data, n, i)[Position(c, k, SegmentCount(n))] == SegmentAt(data[c], k)
  {
    if i > 0 {
      SegmentsUpToLayout(data, n, i - 1);
      var m := SegmentCount(n);
      var prefix := SegmentsUpTo(data, n, i - 1);
      var last := RowSegments(data[i - 1], n);
      assert SegmentsUpTo(data, n, i) == prefix + last;
      assert |prefix| == (i - 1) * m;
      forall c, k | 0 <= c < i && 0 <= k < m
        ensures Position(c, k, m) < |SegmentsUpTo(data, n, i)|
        ensures SegmentsUpTo(data, n, i)[Position(c, k, m)] == SegmentAt(data[c], k)
      {
        if c < i - 1 {
          BlockIndexBound(c, k, m, i - 1);
          assert SegmentsUpTo(data, n, i)[Position(c, k, m)] == prefix[Position(c, k, m)];
        } else {
          assert Position(c, k, m) == |prefix| + k;
        }
      }
    }
  }

  /** The whole output: n - 1 segments per core, and core c's segment k
      (spanning [30 k, 30 (k + 1)) and joining readings k and k + 1) in
      position c (n - 1) + k. */
  lemma SegmentsLayout(data: seq<seq<real>>)
    requires Readable(data)
    ensures |Segments(data)| == |data| * SegmentCount(|data[0]|)
    ensures forall c, k | 0 <= c < |data| && 0 <= k < SegmentCount(|data[0]|) ::
      && Position(c, k, SegmentCount(|data[0]|)) < |Segments(data)|
      && Segments(data)[Position(c, k, SegmentCount(|data[0]|))] == SegmentAt(data[c], k)
  {
    SegmentsUpToLayout(data, |data[0]|, |data|);
  }

  /** A single reading per core gives no segments at all. */
  lemma SingleReadingHasNoSegments(data: seq<seq<real>>)
    requires Readable(data) && |data[0]| == 1
    ensures Segments(data) == []
  {
    SegmentsLayout(data);
  }

  /** Within one core the segments come in increasing order, and each one
      ends where the next begins, both lines taking the shared reading
      there: the interpolant is continuous. */
  lemma RowSegmentsOrderedAndContinuous(row: seq<real>, n: nat, k: nat, l: nat)
    requires n <= |row| && k < l < SegmentCount(n)
    ensures var r := RowSegments(row, n);
      && r[k].start < r[k].end <= r[l].start < r[l].end
      && (l == k + 1 ==>
            && r[k].end == r[l].start
            && ValueAt(r[k].line, r[k].end as real) == row[k + 1]
            && ValueAt(r[l].line, r[l].start as real) == row[k + 1])
  {
  }

  /** Every segment's slope is the difference of its two readings over the
      30-unit sampling step. */
  lemma SegmentSlope(row: seq<real>, k: nat)
    requires k + 1 < |row|
    ensures SegmentAt(row, k).line.slope == (row[k + 1] - row[k]) / 30.0
  {
    var l := SegmentAt(row, k).line;
    var x0, x1 := (k * 30) as real, ((k + 1) * 30) as real;
    assert x1 - x0 == 30.0;
    assert l.slope * (x1 - x0) == row[k + 1] - row[k];
  }

  /** linear_interpolation without the file: the header, then for every
      core and every pair of consecutive readings the line create_line
      builds, in the order they are written. */
  method LinearInterpolation(data: seq<seq<real>>, fit: PhiHat) returns (header: Header, lines: seq<Segment>)
    requires Readable(data)
    ensures header == HeaderOf(data, fit)
    ensures lines == Segments(data)
  {
    var n := |data[0]|;
    header := Header(0, (n - 1) * 30, fit);
    lines := [];
    var i := 0;
    while i < |data|
      invariant 0 <= i <= |data|
      invariant lines == SegmentsUpTo(data, n, i)
    {
      var value := 0;
      while value < n - 1
        invariant 0 <= value <= SegmentCount(n)
        invariant lines == SegmentsUpTo(data, n, i) + RowSegments(data[i], n)[..value]
      {
        var line := CreateLine((value * 30) as real, ((value + 1) * 30) as real, data[i][value], data[i][value + 1]);
        lines := lines + [Segment(value * 30, (value + 1) * 30, value, line.value)];
        assert RowSegments(data[i], n)[..value + 1] == RowSegments(data[i], n)[..value] + [SegmentAt(data[i], value)];
        value := value + 1;
      }
      assert RowSegments(data[i], n)[..value] == RowSegments(data[i], n);
      i := i + 1;
    }
  }
}
