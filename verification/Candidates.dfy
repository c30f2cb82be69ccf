/** Candidate frames: midpoints of the widest gaps between seen frames, then random unseen ones. */
module Candidates {
  import opened Py
  import opened Frames

  /** What a proposal promises: as many new frames of the video as were asked for or as there are, in order. */
  ghost predicate IsProposal(frameCount: int, seen: set<int>, k: int, r: seq<int>) {
    && Increasing(r)
    && AllIn(r, 0, frameCount)
    && (forall x :: x in r ==> x !in seen)
    && |r| == Max(0, Min(k, frameCount - |seen|))
  }

  /** `rng.sample(population, n)`: some `n` of the population, each position at most once. */
  ghost predicate IsSampler(draw: (seq<int>, nat) -> seq<int>) {
    forall s, n: nat :: n <= |s| && Distinct(s) ==>
      |draw(s, n)| == n && Distinct(draw(s, n)) && forall x :: x in draw(s, n) ==> x in s
  }

  datatype Gap = Gap(width: int, a: int, b: int)

  /** `g` comes before `h` in reverse tuple order. */
  predicate Before(g: Gap, h: Gap) {
    g.width > h.width || (g.width == h.width && (g.a > h.a || (g.a == h.a && g.b >= h.b)))
  }

  predicate SortedDesc(gaps: seq<Gap>) { forall i, j :: 0 <= i < j < |gaps| ==> Before(gaps[i], gaps[j]) }

  lemma AllAfter(first: Gap, g: Gap, rest: seq<Gap>, t: seq<Gap>)
    requires multiset(t) == multiset(rest) + multiset{g} && Before(first, g)
    requires forall i :: 0 <= i < |rest| ==> Before(first, rest[i])
    ensures forall i :: 0 <= i < |t| ==> Before(first, t[i])
  {
    forall i | 0 <= i < |t| ensures Before(first, t[i]) {
      var h := t[i];
      assert h in multiset(t);
      if h != g {
        assert h in multiset(rest);
      }
    }
  }

  function InsertDesc(g: Gap, gaps: seq<Gap>): (r: seq<Gap>)
    requires SortedDesc(gaps)
    ensures SortedDesc(r) && multiset(r) == multiset(gaps) + multiset{g}
  {
    if gaps == [] then [g]
    else if Before(g, gaps[0]) then [g] + gaps
    else
      var t := InsertDesc(g, gaps[1..]);
      assert gaps == [gaps[0]] + gaps[1..];
      AllAfter(gaps[0], g, gaps[1..], t);
      [gaps[0]] + t
  }

  /** `gaps.sort(reverse=True)` */
  function SortDesc(gaps: seq<Gap>): (r: seq<Gap>)
    ensures SortedDesc(r) && multiset(r) == multiset(gaps)
  {
    if gaps == [] then []
    else
      assert gaps == [gaps[0]] + gaps[1..];
      InsertDesc(gaps[0], SortDesc(gaps[1..]))
  }

  /** The middle of a gap: as far from one end as from the other, or one nearer to the first. */
  function Mid(g: Gap): (m: int)
    ensures 0 <= (g.b - m) - (m - g.a) <= 1
  {
    (g.a + g.b) / 2
  }

  function Mids(gaps: seq<Gap>): (r: seq<int>)
    ensures |r| == |gaps| && forall i :: 0 <= i < |r| ==> r[i] == Mid(gaps[i])
  {
    seq(|gaps|, i requires 0 <= i < |gaps| => Mid(gaps[i]))
  }

  /** A stretch of at least one unseen frame between two positions of the video. */
  ghost predicate Open(frameCount: int, seen: set<int>, g: Gap) {
    0 <= g.a && g.a + 1 < g.b < frameCount && forall x :: g.a < x < g.b ==> x !in seen
  }

  ghost predicate Apart(g: Gap, h: Gap) { g.b <= h.a || h.b <= g.a }

  /** The gaps between neighbouring anchors that have a frame inside. */
  function GapsOf(anchors: seq<int>): seq<Gap> {
    if |anchors| < 2 then []
    else
      var n := |anchors|;
      GapsOf(anchors[..n - 1])
      + if anchors[n - 1] - anchors[n - 2] <= 1 then []
        else [Gap(anchors[n - 1] - anchors[n - 2], anchors[n - 2], anchors[n - 1])]
  }

  /** The anchors: both ends of the video and the seen frames of it. */
  function Anchors(frameCount: int, seen: seq<int>): seq<int> {
    SortUnique([0, frameCount - 1] + InRange(seen, frameCount))
  }

  ghost predicate GoodGaps(frameCount: int, seen: set<int>, gaps: seq<Gap>) {
    && Distinct(gaps)
    && (forall g :: g in gaps ==> Open(frameCount, seen, g))
    && (forall g, h :: g in gaps && h in gaps && g != h ==> Apart(g, h))
  }

  lemma {:induction false} DistinctMultiset<T>(s: seq<T>)
    ensures Distinct(s) <==> forall x :: multiset(s)[x] <= 1
  {
    if s != [] {
      var t, y := s[..|s| - 1], s[|s| - 1];
      assert s == t + [y];
      DistinctMultiset(t);
      if !Distinct(s) && Distinct(t) {
        assert y in t;
        assert multiset(s)[y] > 1;
      }
      if Distinct(s) {
        assert y !in t;
      } else if !Distinct(t) {
        var x :| multiset(t)[x] > 1;
        assert multiset(s)[x] > 1;
      }
    }
  }

  lemma SortKeepsGood(frameCount: int, seen: set<int>, gaps: seq<Gap>)
    requires GoodGaps(frameCount, seen, gaps)
    ensures GoodGaps(frameCount, seen, SortDesc(gaps))
  {
    var r := SortDesc(gaps);
    DistinctMultiset(gaps);
    DistinctMultiset(r);
    forall g | g in r ensures g in gaps {
      assert g in multiset(r);
    }
  }

  /** Neighbouring anchors are apart, and as every seen frame is an anchor, nothing seen lies between two of them. */
  lemma {:induction false} GapsAreGood(frameCount: int, seen: set<int>, all: seq<int>, n: nat)
    requires n <= |all| && Increasing(all) && AllIn(all, 0, frameCount)
    requires forall x :: x in seen && 0 <= x < frameCount ==> x in all
    ensures var gaps := GapsOf(all[..n]);
            GoodGaps(frameCount, seen, gaps) && forall g :: g in gaps ==> n > 0 && g.b <= all[n - 1]
  {
    if n >= 2 {
      GapsAreGood(frameCount, seen, all, n - 1);
      assert all[..n][..n - 1] == all[..n - 1];
      var a, b := all[n - 2], all[n - 1];
      assert a in all && b in all;
      var gaps, g := GapsOf(all[..n - 1]), Gap(b - a, a, b);
      if b - a > 1 {
        forall x | a < x < b ensures x !in seen {
          BetweenAnchors(all, n - 2, x);
        }
        assert GapsOf(all[..n]) == gaps + [g];
        assert g !in gaps;
      } else {
        assert GapsOf(all[..n]) == gaps;
      }
    }
  }

  lemma AnchorsAreGood(frameCount: int, seen: seq<int>)
    requires frameCount >= 1
    ensures GoodGaps(frameCount, Elems(seen), SortDesc(GapsOf(Anchors(frameCount, seen))))
  {
    var anchors := Anchors(frameCount, seen);
    var raw := [0, frameCount - 1] + InRange(seen, frameCount);
    assert anchors[..|anchors|] == anchors;
    GapsAreGood(frameCount, Elems(seen), anchors, |anchors|);
    SortKeepsGood(frameCount, Elems(seen), GapsOf(anchors));
  }

  /** A position that bounds gaps: an end of the video, or a seen frame of it. */
  predicate Bound(frameCount: int, seen: seq<int>, x: int) {
    0 <= x < frameCount && (x == 0 || x == frameCount - 1 || x in seen)
  }

  /** Two neighbouring bounds with at least one frame between them. */
  ghost predicate IsGap(frameCount: int, seen: seq<int>, g: Gap) {
    && Bound(frameCount, seen, g.a) && Bound(frameCount, seen, g.b) && g.width == g.b - g.a > 1
    && forall x :: g.a < x < g.b ==> !Bound(frameCount, seen, x)
  }

  predicate EndsAt(all: seq<int>, i: int, g: Gap) {
    0 < i < |all| && g == Gap(all[i] - all[i - 1], all[i - 1], all[i]) && g.width > 1
  }

  lemma {:induction false} GapsAre(all: seq<int>, n: nat, g: Gap)
    requires n <= |all|
    ensures g in GapsOf(all[..n]) <==> exists i :: i < n && EndsAt(all, i, g)
  {
    if n >= 2 {
      GapsAre(all, n - 1, g);
      assert all[..n][..n - 1] == all[..n - 1];
      assert g in GapsOf(all[..n]) <==> g in GapsOf(all[..n - 1]) || EndsAt(all, n - 1, g);
    }
  }

  lemma NeighboursAre(all: seq<int>, g: Gap)
    requires Increasing(all)
    ensures (exists i :: i < |all| && EndsAt(all, i, g)) <==>
            g.a in all && g.b in all && g.width == g.b - g.a > 1 && forall x :: g.a < x < g.b ==> x !in all
  {
    if g.a in all && g.b in all && g.width == g.b - g.a > 1 && forall x :: g.a < x < g.b ==> x !in all {
      var i :| 0 <= i < |all| && all[i] == g.b;
      var k :| 0 <= k < |all| && all[k] == g.a;
      assert k < i && all[k + 1] in all;
      assert EndsAt(all, i, g);
    }
    if i :| i < |all| && EndsAt(all, i, g) {
      assert g.a in all && g.b in all;
      forall x | g.a < x < g.b ensures x !in all {
        BetweenAnchors(all, i - 1, x);
      }
    }
  }

  /** The gaps looked at are all there are. */
  lemma GapsExactly(frameCount: int, seen: seq<int>, g: Gap)
    requires frameCount >= 1
    ensures g in SortDesc(GapsOf(Anchors(frameCount, seen))) <==> IsGap(frameCount, seen, g)
  {
    hide SortDesc, GapsOf, SortedDesc, Anchors, Increasing;
    var all := Anchors(frameCount, seen);
    AnchorsAre(frameCount, seen);
    assert all[..|all|] == all;
    GapsAre(all, |all|, g);
    NeighboursAre(all, g);
    SameMembers(GapsOf(all), g);
  }

  lemma AnchorsAre(frameCount: int, seen: seq<int>)
    requires frameCount >= 1
    ensures Increasing(Anchors(frameCount, seen))
    ensures forall x :: x in Anchors(frameCount, seen) <==> Bound(frameCount, seen, x)
  {
  }

  lemma SameMembers(gaps: seq<Gap>, g: Gap)
    ensures g in SortDesc(gaps) <==> g in gaps
  {
    assert g in SortDesc(gaps) <==> g in multiset(SortDesc(gaps));
    assert g in gaps <==> g in multiset(gaps);
  }

  lemma {:induction false} Surrounded(all: seq<int>, n: nat, x: int) returns (i: nat)
    requires 1 < n <= |all| && all[0] < x < all[n - 1] && x !in all
    ensures 0 < i < n && all[i - 1] < x < all[i]
  {
    if all[n - 2] < x {
      i := n - 1;
    } else {
      i := Surrounded(all, n - 1, x);
    }
  }

  /** No unseen frame is missed: each lies in a gap, unless it is the first or the last frame of the video. */
  lemma UnseenInGap(frameCount: int, seen: seq<int>, x: int) returns (g: Gap)
    requires 0 < x < frameCount - 1 && x !in seen
    ensures g in SortDesc(GapsOf(Anchors(frameCount, seen))) && g.a < x < g.b
  {
    hide SortDesc, GapsOf, SortedDesc, SortUnique;
    var all := Anchors(frameCount, seen);
    assert 0 in all && frameCount - 1 in all && x !in all;
    assert all[0] == 0 && all[|all| - 1] == frameCount - 1 by {
      assert all[0] in all && all[|all| - 1] in all;
    }
    var i := Surrounded(all, |all|, x);
    g := Gap(all[i] - all[i - 1], all[i - 1], all[i]);
    assert all[..|all|] == all && EndsAt(all, i, g);
    GapsAre(all, |all|, g);
    SameMembers(GapsOf(all), g);
  }

  /** The gaps are taken by their widths, and of equally wide ones the later is taken first. */
  lemma WidestFirst(gaps: seq<Gap>, i: nat, j: nat)
    requires i < j < |gaps|
    ensures var r := SortDesc(gaps);
            i < j < |r| && r[i].width >= r[j].width && (r[i].width == r[j].width ==> r[i].a >= r[j].a)
  {
    assert |multiset(SortDesc(gaps))| == |multiset(gaps)|;
  }

  /** The midpoints of good gaps: new frames, all different. */
  lemma MidsAreNew(frameCount: int, seen: set<int>, gaps: seq<Gap>)
    requires GoodGaps(frameCount, seen, gaps)
    ensures Distinct(Mids(gaps)) && AllIn(Mids(gaps), 0, frameCount) && forall x :: x in Mids(gaps) ==> x !in seen
  {
    forall i | 0 <= i < |gaps|
      ensures gaps[i].a < Mid(gaps[i]) < gaps[i].b && 0 <= Mid(gaps[i]) < frameCount && Mid(gaps[i]) !in seen
    {
      var g := gaps[i];
      assert g in gaps && Open(frameCount, seen, g);
    }
    forall i, j | 0 <= i < j < |gaps| ensures Mid(gaps[i]) != Mid(gaps[j]) {
      var g, h := gaps[i], gaps[j];
      assert g in gaps && h in gaps && g != h;
    }
  }

  lemma RemainingCount(frameCount: int, gone: seq<int>)
    requires frameCount >= 0 && AllIn(gone, 0, frameCount)
    ensures |Remaining(frameCount, gone)| == frameCount - |Elems(gone)|
  {
    var r := Remaining(frameCount, gone);
    DistinctCard(r);
    DisjointUnion(Elems(r), Elems(gone), Range(0, frameCount));
  }

  const OFFSETS := [0, -1, 1, -2, 2, -3, 3]

  /** The probing of one gap, which takes the first of the positions around its middle that is new. It never gets past
  the middle itself. */
  method ProbeGap(seen: seq<int>, g: Gap, candidatesIn: seq<int>) returns (candidates: seq<int>)
    requires g.a + 1 < g.b && Mid(g) !in seen && Mid(g) !in candidatesIn
    ensures candidates == candidatesIn + [Mid(g)]
  {
    candidates := candidatesIn;
    for j := 0 to |OFFSETS|
      invariant j == 0 && candidates == candidatesIn
    {
      var idx := Mid(g) + OFFSETS[j];
      if g.a < idx < g.b && idx !in seen && idx !in candidates {
        candidates := candidates + [idx];
        break;
      }
    }
  }

  ghost predicate NewFrames(frameCount: int, seen: seq<int>, r: seq<int>) {
    Distinct(r) && AllIn(r, 0, frameCount) && forall x :: x in r ==> x !in seen
  }

  /** `propose_candidate_frames`: as many new frames as asked for or as there are, in order; with enough gaps they are
  the midpoints of the widest ones, and nothing random is used. */
  method ProposeCandidateFrames(frameCount: int, seen: seq<int>, k: int, draw: (seq<int>, nat) -> seq<int>)
    returns (r: seq<int>)
    requires IsSampler(draw)
    ensures Increasing(r) && NewFrames(frameCount, seen, r) && |r| <= Max(0, k)
    ensures AllIn(seen, 0, frameCount) ==> IsProposal(frameCount, Elems(seen), k, r)
    ensures var gaps := SortDesc(GapsOf(Anchors(frameCount, seen)));
            |Elems(seen)| < frameCount && 0 < k ==>
              if k <= |gaps| then r == SortUnique(Mids(gaps[..k])) else forall g :: g in gaps ==> Mid(g) in r
  {
    hide SortDesc, SortedDesc, GapsOf, Anchors, SortUnique, Remaining;
    if frameCount <= 0 || k <= 0 {
      NothingToPropose(frameCount, seen, k);
      return [];
    }
    if |Elems(seen)| >= frameCount {
      return [];
    }
    var gaps := SortDesc(GapsOf(Anchors(frameCount, seen)));
    AnchorsAreGood(frameCount, seen);
    MidsAreNew(frameCount, Elems(seen), gaps);
    var candidates := [];
    for i := 0 to |gaps|
      invariant candidates == Mids(gaps[..i]) && i < k
    {
      MidAt(frameCount, seen, gaps, i);
      candidates := ProbeGap(seen, gaps[i], candidates);
      if |candidates| >= k {
        assert Take(candidates, k) == candidates;
        MidPrefix(frameCount, seen, gaps, i + 1);
        NewFramesFit(frameCount, seen, candidates);
        ProposalSorted(frameCount, seen, k, candidates);
        return SortUnique(Take(candidates, k));
      }
    }
    MidPrefix(frameCount, seen, gaps, |gaps|);
    var need := k - |candidates|;
    var remaining := Remaining(frameCount, seen + candidates);
    IncreasingDistinct(remaining);
    ghost var mids := candidates;
    if remaining != [] {
      var fill := draw(remaining, Min(need, |remaining|));
      SortUniqueLength(fill);
      IncreasingDistinct(SortUnique(fill));
      candidates := candidates + SortUnique(fill);
    }
    Filled(frameCount, seen, k, mids, candidates);
    assert Take(candidates, k) == candidates;
    ProposalSorted(frameCount, seen, k, candidates);
    r := SortUnique(Take(candidates, k));
    forall g | g in gaps ensures Mid(g) in r {
      var i :| 0 <= i < |gaps| && gaps[i] == g;
      assert gaps[..|gaps|] == gaps && mids[i] == Mid(g) && candidates[i] == mids[i];
    }
  }

  lemma NewFramesFit(frameCount: int, seen: seq<int>, c: seq<int>)
    requires NewFrames(frameCount, seen, c)
    ensures AllIn(seen, 0, frameCount) && frameCount >= 0 ==> |c| <= frameCount - |Elems(seen)|
  {
    if AllIn(seen, 0, frameCount) && frameCount >= 0 {
      DistinctCard(c);
      forall x ensures x in Elems(c) <==> x in Elems(seen + c) - Elems(seen) {
        assert x in c ==> x !in seen;
      }
      DisjointUnion(Elems(seen), Elems(c), Elems(seen + c));
      SubsetCard(Elems(seen + c), Range(0, frameCount));
    }
  }

  lemma NothingToPropose(frameCount: int, seen: seq<int>, k: int)
    requires frameCount <= 0 || k <= 0
    ensures AllIn(seen, 0, frameCount) ==> IsProposal(frameCount, Elems(seen), k, [])
  {
  }

  lemma MidAt(frameCount: int, seen: seq<int>, gaps: seq<Gap>, i: nat)
    requires GoodGaps(frameCount, Elems(seen), gaps) && i < |gaps|
    ensures var g := gaps[i];
            g.a + 1 < g.b && Mid(g) !in seen && Mid(g) !in Mids(gaps[..i])
    ensures Mids(gaps[..i + 1]) == Mids(gaps[..i]) + [Mid(gaps[i])]
  {
    var g := gaps[i];
    assert g in gaps && Open(frameCount, Elems(seen), g) && g.a < Mid(g) < g.b;
    MidsAreNew(frameCount, Elems(seen), gaps);
    var m := Mids(gaps)[i];
    assert m in Mids(gaps) && m !in Elems(seen);
    forall j | 0 <= j < i ensures Mids(gaps[..i])[j] != Mid(g) {
      assert Mids(gaps)[j] != Mids(gaps)[i];
    }
  }

  lemma MidPrefix(frameCount: int, seen: seq<int>, gaps: seq<Gap>, n: nat)
    requires GoodGaps(frameCount, Elems(seen), gaps) && n <= |gaps|
    ensures NewFrames(frameCount, seen, Mids(gaps[..n]))
  {
    var m := Mids(gaps);
    MidsAreNew(frameCount, Elems(seen), gaps);
    assert Mids(gaps[..n]) == m[..n];
    assert forall x :: x in m[..n] ==> x in m;
  }

  /** New frames in the right number make a proposal once sorted. */
  lemma ProposalSorted(frameCount: int, seen: seq<int>, k: int, c: seq<int>)
    requires NewFrames(frameCount, seen, c)
    ensures var r := SortUnique(c);
            Increasing(r) && NewFrames(frameCount, seen, r) && |r| == |c|
    ensures AllIn(seen, 0, frameCount) && |c| == Max(0, Min(k, frameCount - |Elems(seen)|)) ==>
              IsProposal(frameCount, Elems(seen), k, SortUnique(c))
  {
    SortUniqueLength(c);
    IncreasingDistinct(SortUnique(c));
  }

  /** After the random fill there are as many frames as asked for, or all there are. */
  lemma Filled(frameCount: int, seen: seq<int>, k: int, mids: seq<int>, all: seq<int>)
    requires frameCount > 0 && NewFrames(frameCount, seen, mids) && |mids| < k
    requires mids <= all && Distinct(all[|mids|..])
    requires forall x :: x in all[|mids|..] ==> x in Remaining(frameCount, seen + mids)
    requires |all| == |mids| + Min(k - |mids|, |Remaining(frameCount, seen + mids)|)
    ensures NewFrames(frameCount, seen, all) && |all| <= k
    ensures AllIn(seen, 0, frameCount) ==> |all| == Max(0, Min(k, frameCount - |Elems(seen)|))
  {
    var fill := all[|mids|..];
    assert all == mids + fill;
    forall i, j | 0 <= i < j < |all| ensures all[i] != all[j] {
      if i < |mids| <= j {
        assert all[j] == fill[j - |mids|] && fill[j - |mids|] in fill;
        assert all[i] in seen + mids;
      }
    }
    forall x | x in all ensures 0 <= x < frameCount && x !in seen {
      if x in fill {
        assert x !in seen + mids;
      }
    }
    if AllIn(seen, 0, frameCount) {
      RemainingCount(frameCount, seen + mids);
      DistinctCard(mids);
      DisjointUnion(Elems(seen), Elems(mids), Elems(seen + mids));
    }
  }
}
