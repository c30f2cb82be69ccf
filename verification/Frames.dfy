/** Frame arithmetic: uniform sampling, sorted index lists, and the intervals of seen and unseen frames. */
module Frames {
  import opened Py

  // ---------------------------------------------------------------- sorted index lists

  lemma TailMember(s: seq<int>)
    requires Increasing(s) && s != []
    ensures forall y :: y in s[1..] <==> y in s && s[0] < y
  {
    forall y ensures y in s[1..] <==> y in s && s[0] < y {
      assert s == [s[0]] + s[1..];
      assert forall i :: 0 <= i < |s[1..]| ==> s[0] < s[1..][i];
    }
  }

  lemma ConsIncreasing(x: int, t: seq<int>)
    requires Increasing(t) && forall y :: y in t ==> x < y
    ensures Increasing([x] + t)
  {
    forall i | 0 <= i < |t| ensures x < t[i] {
      var y := t[i];
      assert y in t;
    }
  }

  /** `x` put into an increasing list, once. */
  function Insert(x: int, s: seq<int>): (r: seq<int>)
    requires Increasing(s)
    ensures Increasing(r)
    ensures forall y :: y in r <==> y == x || y in s
    ensures |r| == |s| + if x in s then 0 else 1
  {
    if s == [] then [x]
    else if x < s[0] then [x] + s
    else if x == s[0] then s
    else
      var t := Insert(x, s[1..]);
      assert s == [s[0]] + s[1..];
      TailMember(s);
      ConsIncreasing(s[0], t);
      [s[0]] + t
  }

  /** `sorted(set(xs))` */
  function SortUnique(xs: seq<int>): (r: seq<int>)
    ensures Increasing(r)
    ensures forall y :: y in r <==> y in xs
  {
    if xs == [] then [] else Insert(xs[0], SortUnique(xs[1..]))
  }

  lemma {:induction false} SortUniqueLength(xs: seq<int>)
    requires Distinct(xs)
    ensures |SortUnique(xs)| == |xs|
  {
    if xs != [] {
      SortUniqueLength(xs[1..]);
    }
  }

  lemma IncreasingDistinct(s: seq<int>)
    requires Increasing(s)
    ensures Distinct(s)
  {
  }

  // ---------------------------------------------------------------- uniform sampling

  /** `round(p / q)` for an exact quotient: to the nearest integer, halves to the even one. */
  function RoundDiv(p: int, q: int): (r: int)
    requires q > 0
    ensures -q <= 2 * (r * q - p) <= q
  {
    var f, m := p / q, p % q;
    assert p == f * q + m;
    NextMultiple(f, q);
    if 2 * m < q || (2 * m == q && f % 2 == 0) then f else f + 1
  }

  lemma NextMultiple(f: int, q: int)
    ensures (f + 1) * q == f * q + q
  {
  }

  /** Together with the contract of RoundDiv this tells the result in every case. */
  lemma HalvesToEven(p: int, q: int)
    requires q > 0 && 2 * (RoundDiv(p, q) * q - p) in {q, -q}
    ensures RoundDiv(p, q) % 2 == 0
  {
    NextMultiple(p / q, q);
  }

  /** `sample_uniform_indices` */
  function SampleUniform(frameCount: int, n: int): seq<int> {
    if n <= 0 then []
    else if frameCount <= 0 then seq(n, i => i)
    else if n == 1 then [frameCount / 2]
    else if frameCount == 1 then [0]
    else seq(n, i requires 0 <= i < n => RoundDiv(i * (frameCount - 1), n - 1))
  }

  /** A rounded quotient lies between the integers the quotient lies between. */
  lemma RoundBetween(p: int, q: int, lo: int, hi: int)
    requires q > 0 && lo * q <= p <= hi * q
    ensures lo <= RoundDiv(p, q) <= hi
  {
    var r := RoundDiv(p, q);
    if r < lo {
      MulMono(r + 1, lo, q);
      NextMultiple(r, q);
    }
    if r > hi {
      MulMono(hi + 1, r, q);
      NextMultiple(hi, q);
    }
  }

  /** Multiples are rounded to themselves. */
  lemma RoundExact(k: int, q: int)
    requires q > 0
    ensures RoundDiv(k * q, q) == k
  {
    RoundBetween(k * q, q, k, k);
  }

  /** A sample of one frame is the middle one, and a video of unknown length is sampled from its start. */
  lemma SampleEdges(frameCount: int, n: int)
    ensures frameCount >= 1 && n == 1 ==>
              exists m :: SampleUniform(frameCount, n) == [m] && 0 <= m - (frameCount - 1 - m) <= 1
    ensures frameCount <= 0 <= n ==> SampleUniform(frameCount, n) == seq(n, i => i)
  {
    if frameCount >= 1 && n == 1 {
      assert SampleUniform(frameCount, n)[0] == frameCount / 2;
    }
  }

  /** Every sampled frame is a frame of the video, even when more are asked for than there are. */
  lemma SampleInRange(frameCount: int, n: int)
    requires frameCount >= 1
    ensures AllIn(SampleUniform(frameCount, n), 0, frameCount)
    ensures n >= 1 ==> 1 <= |SampleUniform(frameCount, n)| <= n
  {
    if n >= 2 && frameCount >= 2 {
      forall i | 0 <= i < n ensures 0 <= SampleUniform(frameCount, n)[i] < frameCount {
        MulMono(0, i, frameCount - 1);
        MulMono(i, n - 1, frameCount - 1);
        RoundBetween(i * (frameCount - 1), n - 1, 0, frameCount - 1);
      }
    }
  }

  /** Two quotients a step of `d / q` apart are rounded to integers within one of that step, and to different ones when
  the step is more than one. */
  lemma RoundStep(p: int, d: int, q: int)
    requires q > 0
    ensures var gap := RoundDiv(p + d, q) - RoundDiv(p, q);
            -q <= gap * q - d <= q && (d > q ==> gap >= 1)
  {
    var a, b := RoundDiv(p, q), RoundDiv(p + d, q);
    assert (b - a) * q == b * q - a * q;
    if d > q && b <= a {
      MulMono(b, a, q);
    }
  }

  /** For 2 <= n <= frame_count the sample starts at the first frame, ends at the last, is strictly increasing, and no
  gap is more than one away from the exact spacing (frame_count - 1) / (n - 1). */
  lemma SampleSpreads(frameCount: int, n: int)
    requires 2 <= n <= frameCount
    ensures var s := SampleUniform(frameCount, n);
            && |s| == n && s[0] == 0 && s[n - 1] == frameCount - 1
            && Increasing(s)
            && forall i :: 0 <= i < n - 1 ==>
                 -(n - 1) <= (s[i + 1] - s[i]) * (n - 1) - (frameCount - 1) <= n - 1
  {
    hide RoundDiv;
    var s, d, q := SampleUniform(frameCount, n), frameCount - 1, n - 1;
    RoundExact(0, q);
    RoundExact(d, q);
    assert s[n - 1] == RoundDiv(q * d, q) == RoundDiv(d * q, q);
    forall i | 0 <= i < n - 1
      ensures s[i] < s[i + 1] && -q <= (s[i + 1] - s[i]) * q - d <= q
    {
      SampleStep(i, d, q);
    }
    StepwiseIncreasing(s);
  }

  /** The samples are different exactly when no more of them are asked for than the video has frames, or when the
  sample is a single frame anyway. */
  lemma SampleDistinct(frameCount: int, n: int)
    requires frameCount >= 1
    ensures Distinct(SampleUniform(frameCount, n)) <==> n <= 1 || frameCount == 1 || n <= frameCount
  {
    hide RoundDiv;
    if n >= 2 && frameCount >= 2 {
      if n <= frameCount {
        SampleSpreads(frameCount, n);
      } else {
        SampleInRange(frameCount, n);
        assert |SampleUniform(frameCount, n)| == n;
        if Distinct(SampleUniform(frameCount, n)) {
          PigeonHole(SampleUniform(frameCount, n), 0, frameCount);
        }
      }
    }
  }

  lemma SampleStep(i: nat, d: int, q: int)
    requires 0 < q <= d
    ensures var gap := RoundDiv((i + 1) * d, q) - RoundDiv(i * d, q);
            gap >= 1 && -q <= gap * q - d <= q
  {
    hide RoundDiv;
    NextMultiple(i, d);
    RoundStep(i * d, d, q);
    if d == q {
      RoundExact(i, q);
      RoundExact(i + 1, q);
    }
  }

  lemma {:induction false} StepwiseIncreasing(s: seq<int>)
    requires forall i :: 0 <= i < |s| - 1 ==> s[i] < s[i + 1]
    ensures Increasing(s)
  {
    if s != [] {
      var t := s[..|s| - 1];
      forall i | 0 <= i < |t| - 1 ensures t[i] < t[i + 1] {
        assert t[i] == s[i] && t[i + 1] == s[i + 1];
      }
      StepwiseIncreasing(t);
      forall i, j | 0 <= i < j < |s| ensures s[i] < s[j] {
        assert s[i] == t[i] && t[|t| - 1] == s[|s| - 2] < s[|s| - 1];
        if j < |t| {
          assert s[j] == t[j];
        } else if i < |t| - 1 {
          assert t[i] < t[|t| - 1];
        }
      }
    }
  }

  /** Sample `i` of `q + 1` on `d + 1` positions from `start` on, rounded. */
  function PositionAt(start: int, d: int, q: int, i: int): int
    requires q > 0
  {
    RoundDiv(start * q + i * d, q)
  }

  /** The rounded and clamped positions of `sample_uniform_indices_inclusive`, with the spacing taken as an exact
  quotient. */
  function Spaced(start: int, end: int, k: int): (r: seq<int>)
    requires k >= 2
    ensures |r| == k
  {
    seq(k, i requires 0 <= i < k =>
      Max(start, Min(PositionAt(start, end - start, k - 1, i), end)))
  }

  /** `sample_uniform_indices_inclusive` */
  function SampleInclusive(start: int, end: int, k: int): seq<int> {
    if k <= 0 || end < start then []
    else if start == end || k == 1 then [start]
    else Dedupe(Spaced(start, end, k))
  }

  /** The samples go from one end to the other. */
  lemma Position(start: int, d: int, q: int, i: int)
    requires 0 < q && 0 <= d && 0 <= i <= q
    ensures start <= PositionAt(start, d, q, i) <= start + d
    ensures PositionAt(start, d, q, 0) == start && PositionAt(start, d, q, q) == start + d
  {
    hide RoundDiv;
    MulMono(0, i, d);
    MulMono(i, q, d);
    assert (start + d) * q == start * q + q * d;
    RoundBetween(start * q + i * d, q, start, start + d);
    RoundExact(start, q);
    RoundExact(start + d, q);
  }

  /** They do not stand still while there are enough positions, and leave none out when there are not. */
  lemma PositionStep(start: int, d: int, q: int, i: int)
    requires 0 < q && 0 <= d
    ensures var gap := PositionAt(start, d, q, i + 1) - PositionAt(start, d, q, i);
            (d >= q ==> gap >= 1) && (d < q ==> gap <= 1)
  {
    hide RoundDiv;
    NextMultiple(i, d);
    RoundStep(start * q + i * d, d, q);
    if d == q {
      assert start * q + i * q == (start + i) * q;
      RoundExact(start + i, q);
      RoundExact(start + i + 1, q);
    } else if d < q {
      StepBounds(PositionAt(start, d, q, i + 1) - PositionAt(start, d, q, i), d, q);
    }
  }

  lemma StepBounds(gap: int, d: int, q: int)
    requires 0 <= d < q && gap * q - d <= q
    ensures gap <= 1
  {
    if gap >= 2 {
      MulMono(2, gap, q);
    }
  }

  /** Rounding stays between the ends, so that the clamp does nothing. */
  lemma SpacedAt(start: int, end: int, k: int, i: nat)
    requires start < end && k >= 2 && i < k
    ensures Spaced(start, end, k)[i] == PositionAt(start, end - start, k - 1, i)
    ensures start <= Spaced(start, end, k)[i] <= end
    ensures Spaced(start, end, k)[0] == start && Spaced(start, end, k)[k - 1] == end
  {
    hide PositionAt;
    Position(start, end - start, k - 1, i);
    Position(start, end - start, k - 1, 0);
    Position(start, end - start, k - 1, k - 1);
  }

  /** A walk in steps of at most one passes every position between its ends. */
  lemma {:induction false} Passes(s: seq<int>, x: int)
    requires s != [] && s[0] <= x <= s[|s| - 1]
    requires forall i :: 0 <= i < |s| - 1 ==> s[i + 1] <= s[i] + 1
    ensures x in s
    decreases |s|
  {
    if s[0] < x {
      assert s[1..][0] == s[1];
      Passes(s[1..], x);
    }
  }

  /** As many different positions as asked for or as the window has, the first one of the window among them, and the
  last one if there are two. */
  lemma SampleInclusiveSize(start: int, end: int, k: int)
    requires start <= end && k >= 1
    ensures var s := SampleInclusive(start, end, k);
            |s| == Min(k, end - start + 1) && Distinct(s) && AllIn(s, start, end + 1)
            && start in s && (k >= 2 ==> end in s)
  {
    hide Spaced, PositionAt;
    if start < end && k >= 2 {
      var s := Spaced(start, end, k);
      SpacedAt(start, end, k, 0);
      forall i | 0 <= i < k ensures start <= s[i] <= end {
        SpacedAt(start, end, k, i);
      }
      forall i | 0 <= i < k - 1
        ensures (k - 1 <= end - start ==> s[i] < s[i + 1]) && (end - start < k - 1 ==> s[i + 1] <= s[i] + 1)
      {
        SpacedAt(start, end, k, i);
        SpacedAt(start, end, k, i + 1);
        PositionStep(start, end - start, k - 1, i);
      }
      if k - 1 <= end - start {
        StepwiseIncreasing(s);
        DedupeDistinct(s);
      } else {
        forall x ensures x in s <==> start <= x <= end {
          if start <= x <= end {
            Passes(s, x);
          }
        }
        AllOfWindow(Dedupe(s), start, end);
      }
    }
  }

  lemma AllOfWindow(s: seq<int>, start: int, end: int)
    requires start <= end && Distinct(s) && forall x :: x in s <==> start <= x <= end
    ensures |s| == end - start + 1
  {
    DistinctCard(s);
    assert Elems(s) == Range(start, end + 1);
  }

  /** Two quotients less than one apart are rounded to integers at most one apart. */
  lemma RoundClose(p: int, d: int, q: int)
    requires 0 <= d < q
    ensures RoundDiv(p + d, q) <= RoundDiv(p, q) + 1
  {
    var a, b := RoundDiv(p, q), RoundDiv(p + d, q);
    if b > a + 1 {
      MulMono(a + 2, b, q);
      NextMultiple(a, q);
      NextMultiple(a + 1, q);
    }
  }

  lemma SampleClose(i: nat, d: int, q: int)
    requires 0 <= d <= q && q > 0
    ensures RoundDiv((i + 1) * d, q) <= RoundDiv(i * d, q) + 1
  {
    NextMultiple(i, d);
    if d == q {
      RoundExact(i, q);
      RoundExact(i + 1, q);
    } else {
      RoundClose(i * d, d, q);
    }
  }

  /** A sample of as many frames as the video has, or more, takes all of them. */
  lemma SampleCovers(frameCount: int, n: int, x: int)
    requires frameCount >= 1 && n >= frameCount && 0 <= x < frameCount
    ensures x in SampleUniform(frameCount, n)
  {
    hide RoundDiv;
    var s := SampleUniform(frameCount, n);
    if frameCount == 1 {
      assert s[0] == 0;
    } else {
      var d, q := frameCount - 1, n - 1;
      RoundExact(0, q);
      RoundExact(d, q);
      assert s[0] == 0 && s[n - 1] == RoundDiv(q * d, q) == RoundDiv(d * q, q) == d;
      forall i | 0 <= i < n - 1 ensures s[i + 1] <= s[i] + 1 {
        SampleClose(i, d, q);
      }
      Passes(s, x);
    }
  }

  /** How many different frames a sample has. */
  lemma SampleCount(frameCount: int, n: int)
    requires frameCount >= 1 && n >= 1
    ensures |Elems(SampleUniform(frameCount, n))| == Min(n, frameCount)
  {
    hide SampleUniform;
    var s := SampleUniform(frameCount, n);
    SampleInRange(frameCount, n);
    if n >= frameCount {
      forall x | 0 <= x < frameCount ensures x in s {
        SampleCovers(frameCount, n, x);
      }
      assert Elems(s) == Range(0, frameCount);
    } else {
      SampleDistinct(frameCount, n);
      DistinctCard(s);
      SampleLength(frameCount, n);
    }
  }

  lemma SampleLength(frameCount: int, n: int)
    requires 1 <= n <= frameCount
    ensures |SampleUniform(frameCount, n)| == n
  {
  }

  // ---------------------------------------------------------------- intervals

  datatype Interval = Interval(start: int, end: int)

  ghost predicate Covers(ivs: seq<Interval>, x: int) {
    exists i :: 0 <= i < |ivs| && ivs[i].start <= x <= ivs[i].end
  }

  /** Non-empty intervals in increasing order, with at least one uncovered position between neighbours. */
  ghost predicate Canonical(ivs: seq<Interval>) {
    && (forall i :: 0 <= i < |ivs| ==> ivs[i].start <= ivs[i].end)
    && (forall i, j :: 0 <= i < j < |ivs| ==> ivs[i].end + 1 < ivs[j].start)
  }

  /** The intervals of the first `k` of some sorted indices: those that are finished, and the one that still grows. */
  ghost predicate IntervalsOf(sorted: seq<int>, k: nat, finished: seq<Interval>, start: int, prev: int) {
    && 1 <= k <= |sorted| && prev == sorted[k - 1]
    && Canonical(finished + [Interval(start, prev)])
    && forall x :: Covers(finished + [Interval(start, prev)], x) <==> x in sorted[..k]
  }

  lemma FirstIndex(sorted: seq<int>)
    requires sorted != []
    ensures IntervalsOf(sorted, 1, [], sorted[0], sorted[0])
  {
    FirstInterval(sorted[0]);
    assert sorted[..1] == [sorted[0]];
  }

  /** The next index joins the interval that still grows, or finishes it. */
  lemma NextIndex(sorted: seq<int>, k: nat, finished: seq<Interval>, start: int, prev: int)
    requires Increasing(sorted) && k < |sorted| && IntervalsOf(sorted, k, finished, start, prev)
    ensures var idx := sorted[k];
            if idx == prev + 1 then IntervalsOf(sorted, k + 1, finished, start, idx)
            else IntervalsOf(sorted, k + 1, finished + [Interval(start, prev)], idx, idx)
  {
    hide Canonical, Covers, Increasing;
    InOrder(sorted, k);
    if sorted[k] == prev + 1 {
      LastGrows(finished, Interval(start, prev), sorted[k]);
    } else {
      LastAdded(finished, Interval(start, prev), sorted[k]);
    }
  }

  lemma LastIndex(sorted: seq<int>, finished: seq<Interval>, start: int, prev: int)
    requires IntervalsOf(sorted, |sorted|, finished, start, prev)
    ensures Canonical(finished + [Interval(start, prev)])
    ensures forall x :: Covers(finished + [Interval(start, prev)], x) <==> x in sorted
  {
    hide Canonical, Covers;
    assert sorted[..|sorted|] == sorted;
  }

  /** `indices_to_intervals`: the canonical intervals of the given indices. */
  method IndicesToIntervals(indices: seq<int>) returns (intervals: seq<Interval>)
    ensures Canonical(intervals)
    ensures forall x :: Covers(intervals, x) <==> x in indices
  {
    hide Canonical, Covers, SortUnique, Increasing, IntervalsOf;
    if indices == [] {
      NoneCovered();
      return [];
    }
    var sorted := SortUnique(indices);
    assert indices[0] in sorted;
    intervals := [];
    var start, prev := sorted[0], sorted[0];
    FirstIndex(sorted);
    for k := 1 to |sorted|
      invariant IntervalsOf(sorted, k, intervals, start, prev)
    {
      var idx := sorted[k];
      NextIndex(sorted, k, intervals, start, prev);
      if idx == prev + 1 {
        prev := idx;
      } else {
        intervals := intervals + [Interval(start, prev)];
        start, prev := idx, idx;
      }
    }
    LastIndex(sorted, intervals, start, prev);
    intervals := intervals + [Interval(start, prev)];
  }

  lemma CoversAppend(ivs: seq<Interval>, last: Interval, x: int)
    ensures Covers(ivs + [last], x) <==> Covers(ivs, x) || last.start <= x <= last.end
  {
    var all := ivs + [last];
    if last.start <= x <= last.end {
      assert all[|ivs|] == last;
    }
    if Covers(ivs, x) {
      var i :| 0 <= i < |ivs| && ivs[i].start <= x <= ivs[i].end;
      assert all[i] == ivs[i];
    }
  }

  lemma LastGrows(ivs: seq<Interval>, last: Interval, idx: int)
    requires Canonical(ivs + [last]) && last.end == idx - 1
    ensures Canonical(ivs + [Interval(last.start, idx)])
    ensures forall x :: Covers(ivs + [Interval(last.start, idx)], x) <==> Covers(ivs + [last], x) || x == idx
  {
    var was, now := ivs + [last], ivs + [Interval(last.start, idx)];
    assert was[|ivs|] == last;
    assert forall i :: 0 <= i < |ivs| ==> now[i] == was[i];
    forall x ensures Covers(now, x) <==> Covers(was, x) || x == idx {
      CoversAppend(ivs, Interval(last.start, idx), x);
      CoversAppend(ivs, last, x);
    }
  }

  lemma LastAdded(ivs: seq<Interval>, last: Interval, idx: int)
    requires Canonical(ivs + [last]) && last.end + 1 < idx
    ensures Canonical(ivs + [last] + [Interval(idx, idx)])
    ensures forall x :: Covers(ivs + [last] + [Interval(idx, idx)], x) <==> Covers(ivs + [last], x) || x == idx
  {
    var was := ivs + [last];
    assert was[|ivs|] == last;
    forall x ensures Covers(was + [Interval(idx, idx)], x) <==> Covers(was, x) || x == idx {
      CoversAppend(was, Interval(idx, idx), x);
    }
  }

  lemma FirstInterval(idx: int)
    ensures Canonical([] + [Interval(idx, idx)])
    ensures forall x :: Covers([] + [Interval(idx, idx)], x) <==> x == idx
  {
    forall x ensures Covers([] + [Interval(idx, idx)], x) <==> x == idx {
      CoversAppend([], Interval(idx, idx), x);
    }
  }

  lemma InOrder(s: seq<int>, k: nat)
    requires Increasing(s) && 0 < k < |s|
    ensures s[..k + 1] == s[..k] + [s[k]] && s[k - 1] < s[k]
  {
  }

  /** `[i for i in seen if 0 <= i < frame_count]` */
  function InRange(seen: seq<int>, frameCount: int): (r: seq<int>)
    ensures forall x :: x in r <==> x in seen && 0 <= x < frameCount
  {
    if seen == [] then []
    else if 0 <= seen[0] < frameCount then [seen[0]] + InRange(seen[1..], frameCount)
    else InRange(seen[1..], frameCount)
  }

  /** `unseen_intervals`: the gaps between neighbouring anchors, the seen frames with a sentinel at each end. */
  method UnseenIntervals(frameCount: int, seenFrames: seq<int>) returns (intervals: seq<Interval>)
    ensures Canonical(intervals)
    ensures forall x :: Covers(intervals, x) <==> 0 <= x < frameCount && x !in seenFrames
  {
    hide GapsUpTo, Canonical, Covers, Increasing, SortUnique, InRange;
    if frameCount <= 0 {
      NoneCovered();
      return [];
    }
    var anchors := [-1] + SortUnique(InRange(seenFrames, frameCount)) + [frameCount];
    Bracketed(SortUnique(InRange(seenFrames, frameCount)), -1, frameCount);
    intervals := [];
    GapsStart(anchors);
    for k := 0 to |anchors| - 1
      invariant GapsUpTo(anchors, k, intervals)
    {
      var s, e := anchors[k] + 1, anchors[k + 1] - 1;
      GapAdded(anchors, k, intervals);
      if s <= e {
        intervals := intervals + [Interval(s, e)];
      }
    }
    GapsEnd(frameCount, seenFrames, anchors, intervals);
  }

  lemma NoneCovered()
    ensures Canonical([]) && forall x :: !Covers([], x)
  {
  }

  lemma GapsStart(anchors: seq<int>)
    requires anchors != []
    ensures GapsUpTo(anchors, 0, [])
  {
  }

  lemma GapsEnd(frameCount: int, seen: seq<int>, anchors: seq<int>, intervals: seq<Interval>)
    requires anchors == [-1] + SortUnique(InRange(seen, frameCount)) + [frameCount]
    requires GapsUpTo(anchors, |anchors| - 1, intervals)
    ensures Canonical(intervals)
    ensures forall x :: Covers(intervals, x) <==> 0 <= x < frameCount && x !in seen
  {
    var inside := SortUnique(InRange(seen, frameCount));
    forall x ensures x in anchors <==> x == -1 || x == frameCount || x in inside {
      assert anchors[0] == -1 && anchors[|anchors| - 1] == frameCount;
    }
  }

  /** The intervals between the first `k + 1` anchors. */
  ghost predicate GapsUpTo(anchors: seq<int>, k: nat, intervals: seq<Interval>)
    requires k < |anchors|
  {
    && Canonical(intervals)
    && (forall i :: 0 <= i < |intervals| ==> intervals[i].end < anchors[k])
    && (forall x :: Covers(intervals, x) <==> anchors[0] <= x < anchors[k] && x !in anchors)
  }

  lemma GapAdded(anchors: seq<int>, k: nat, intervals: seq<Interval>)
    requires k + 1 < |anchors| && Increasing(anchors) && GapsUpTo(anchors, k, intervals)
    ensures var s, e := anchors[k] + 1, anchors[k + 1] - 1;
            GapsUpTo(anchors, k + 1, if s <= e then intervals + [Interval(s, e)] else intervals)
  {
    var s, e := anchors[k] + 1, anchors[k + 1] - 1;
    var now := if s <= e then intervals + [Interval(s, e)] else intervals;
    forall x ensures Covers(now, x) <==> anchors[0] <= x < anchors[k + 1] && x !in anchors {
      CoversAppend(intervals, Interval(s, e), x);
      BetweenAnchors(anchors, k, x);
    }
  }

  lemma Bracketed(s: seq<int>, lo: int, hi: int)
    requires Increasing(s) && AllIn(s, lo + 1, hi) && lo < hi
    ensures Increasing([lo] + s + [hi])
  {
    forall i | 0 <= i < |s| ensures lo < s[i] < hi {
      var x := s[i];
      assert x in s;
    }
  }

  /** No anchor lies strictly between two neighbouring ones. */
  lemma BetweenAnchors(anchors: seq<int>, k: nat, x: int)
    requires Increasing(anchors) && k + 1 < |anchors|
    ensures anchors[k] < x < anchors[k + 1] ==> x !in anchors
    ensures x == anchors[k] ==> x in anchors
  {
    assert forall i :: 0 <= i < |anchors| ==> !(anchors[k] < anchors[i] < anchors[k + 1]);
  }

  /** `in_intervals` */
  method InIntervals(idx: int, intervals: seq<Interval>) returns (found: bool)
    ensures found <==> Covers(intervals, idx)
  {
    for k := 0 to |intervals|
      invariant forall i :: 0 <= i < k ==> !(intervals[i].start <= idx <= intervals[i].end)
    {
      if intervals[k].start <= idx <= intervals[k].end {
        return true;
      }
    }
    return false;
  }

  /** Canonical intervals are determined by what they cover. */
  lemma {:induction false} CanonicalUnique(a: seq<Interval>, b: seq<Interval>)
    requires Canonical(a) && Canonical(b) && forall x :: Covers(a, x) <==> Covers(b, x)
    ensures a == b
  {
    hide Covers;
    if a != [] {
      FirstCovers(a, a[0].start);
    }
    if b != [] {
      FirstCovers(b, b[0].start);
    }
    NoneCovered();
    if a != [] && b != [] {
      FirstCovered(a, b);
      FirstCovered(b, a);
      FirstUncovered(a, b);
      FirstUncovered(b, a);
      forall x ensures Covers(a[1..], x) <==> Covers(b[1..], x) {
        CoversTail(a, x);
        CoversTail(b, x);
      }
      CanonicalUnique(a[1..], b[1..]);
      assert a == [a[0]] + a[1..] && b == [b[0]] + b[1..];
    }
  }

  lemma FirstCovered(a: seq<Interval>, b: seq<Interval>)
    requires Canonical(a) && Canonical(b) && a != [] && b != [] && forall x :: Covers(a, x) <==> Covers(b, x)
    ensures a[0].start <= b[0].start
  {
    assert Covers(b, b[0].start);
    var i :| 0 <= i < |a| && a[i].start <= b[0].start <= a[i].end;
  }

  lemma FirstCovers(ivs: seq<Interval>, x: int)
    requires ivs != []
    ensures ivs[0].start <= x <= ivs[0].end ==> Covers(ivs, x)
  {
  }

  lemma FirstUncovered(a: seq<Interval>, b: seq<Interval>)
    requires Canonical(a) && Canonical(b) && a != [] && b != [] && forall x :: Covers(a, x) <==> Covers(b, x)
    requires a[0].start == b[0].start
    ensures a[0].end >= b[0].end
  {
    var x := a[0].end + 1;
    assert !Covers(a, x);
    FirstCovers(b, x);
  }

  lemma CoversTail(a: seq<Interval>, x: int)
    requires Canonical(a) && a != []
    ensures Covers(a[1..], x) <==> Covers(a, x) && x > a[0].end
  {
    if Covers(a[1..], x) {
      var i :| 0 <= i < |a[1..]| && a[1..][i].start <= x <= a[1..][i].end;
      assert a[i + 1] == a[1..][i];
    }
    if Covers(a, x) && x > a[0].end {
      var i :| 0 <= i < |a| && a[i].start <= x <= a[i].end;
      assert a[1..][i - 1] == a[i];
    }
  }

  lemma NotBeforeFirst(ivs: seq<Interval>, x: int)
    requires Canonical(ivs) && ivs != []
    ensures Covers(ivs, x) ==> ivs[0].start <= x
  {
    assert forall i :: 0 <= i < |ivs| ==> ivs[0].start <= ivs[i].start;
  }

  lemma SnocIncreasing(t: seq<int>, x: int)
    requires Increasing(t) && forall y :: y in t ==> y < x
    ensures Increasing(t + [x])
  {
    forall i | 0 <= i < |t| ensures t[i] < x {
      var y := t[i];
      assert y in t;
    }
  }

  /** The frames of the video that are not in `gone`, in order. */
  function Remaining(frameCount: int, gone: seq<int>): (r: seq<int>)
    ensures Increasing(r)
    ensures forall x :: x in r <==> 0 <= x < frameCount && x !in gone
  {
    if frameCount <= 0 then []
    else
      var r := Remaining(frameCount - 1, gone);
      SnocIncreasing(r, frameCount - 1);
      if frameCount - 1 in gone then r else r + [frameCount - 1]
  }

  /** The unseen intervals are the intervals of the frames not seen. */
  method UnseenEitherWay(frameCount: int, seenFrames: seq<int>)
    returns (unseen: seq<Interval>, ofComplement: seq<Interval>)
    ensures unseen == ofComplement
    ensures Canonical(unseen) && forall x :: Covers(unseen, x) <==> 0 <= x < frameCount && x !in seenFrames
  {
    hide Canonical, Covers;
    unseen := UnseenIntervals(frameCount, seenFrames);
    ofComplement := IndicesToIntervals(Remaining(frameCount, seenFrames));
    CanonicalUnique(unseen, ofComplement);
  }

  function TotalLength(ivs: seq<Interval>): int {
    if ivs == [] then 0 else ivs[0].end - ivs[0].start + 1 + TotalLength(ivs[1..])
  }

  /** The lengths of canonical intervals add up to the number of positions covered. */
  lemma {:induction false} LengthIsCount(ivs: seq<Interval>, covered: set<int>)
    requires Canonical(ivs) && forall x :: x in covered <==> Covers(ivs, x)
    ensures TotalLength(ivs) == |covered|
  {
    if ivs == [] {
      forall x ensures x !in covered {
        assert !Covers(ivs, x);
      }
    } else {
      var first := Range(ivs[0].start, ivs[0].end + 1);
      var rest := covered - first;
      forall x ensures x in rest <==> Covers(ivs[1..], x) {
        CoversTail(ivs, x);
        NotBeforeFirst(ivs, x);
      }
      LengthIsCount(ivs[1..], rest);
      forall x | x in first ensures x in covered {
        FirstCovers(ivs, x);
      }
      DisjointUnion(first, rest, covered);
    }
  }

  lemma DisjointUnion(a: set<int>, b: set<int>, c: set<int>)
    requires a <= c && b == c - a
    ensures |a| + |b| == |c|
  {
    assert c == a + b;
  }

  /** The unseen intervals have the length of the video less the frames seen in it. */
  lemma UnseenLength(frameCount: int, seen: seq<int>, ivs: seq<Interval>)
    requires frameCount >= 0 && Canonical(ivs)
    requires forall x :: Covers(ivs, x) <==> 0 <= x < frameCount && x !in seen
    ensures TotalLength(ivs) == frameCount - |Elems(InRange(seen, frameCount))|
  {
    var all, gone := Range(0, frameCount), Elems(InRange(seen, frameCount));
    LengthIsCount(ivs, all - gone);
    assert all == (all - gone) + gone;
  }
}
