/** Long-video benchmarks: the one-frame-per-second timeline, the time window of a question, and the promise that a
question about a window is answered from frames of that window. */
module LongVideo {
  import opened Py
  import opened Protocol
  import opened Policy
  import opened Engine
  import opened RunFacts
  import opened StrictRuns
  import opened Frames
  import opened Candidates
  import opened NextQa
  import opened TimeReference

  // ---------------------------------------------------------------- the timeline

  /** `timeline_len_1fps` */
  function TimelineLen(totalFrames: int, fps: real): int {
    if totalFrames <= 0 then 0 else Max(1, Ceil(totalFrames as real / MaxReal(0.000001, fps)))
  }

  /** `timeline_to_frame_idx` */
  function TimelineToFrame(second: int, fps: real, totalFrames: int): int {
    if totalFrames <= 0 then 0
    else
      var t := MaxReal(0.0, second as real) * fps;
      Max(0, Min(if t >= 0.0 then t.Floor else Ceil(t), totalFrames - 1))
  }

  lemma RealMulMono(a: real, b: real, c: real)
    requires a < b && c > 0.0
    ensures a * c < b * c
  {
  }

  lemma DivMul(a: real, b: real)
    requires b > 0.0
    ensures a / b * b == a
  {
  }

  /** The timeline has as many seconds as it takes to hold the video, and a second shows the last frame that begins by
  then, or the first frame if it lies in front of the video. */
  lemma TimelineIs(totalFrames: int, fps: real, second: int)
    ensures totalFrames <= 0 ==> TimelineLen(totalFrames, fps) == 0 && TimelineToFrame(second, fps, totalFrames) == 0
    ensures totalFrames >= 1 && fps >= 0.000001 ==>
              var n := TimelineLen(totalFrames, fps);
              n >= 1 && (n - 1) as real * fps < totalFrames as real <= n as real * fps
    ensures totalFrames >= 1 && fps >= 0.0 && second >= 0 ==>
              var (frame, t) := (TimelineToFrame(second, fps, totalFrames), second as real * fps);
              0 <= frame < totalFrames && frame as real <= t && (t < frame as real + 1.0 || frame == totalFrames - 1)
    ensures totalFrames >= 1 && (fps < 0.0 || second < 0) ==> TimelineToFrame(second, fps, totalFrames) == 0
  {
    if totalFrames >= 1 && fps >= 0.000001 {
      CeilOfQuotient(totalFrames, fps);
    }
    if totalFrames >= 1 && fps >= 0.0 && second >= 0 {
      assert second as real * fps >= 0.0;
    }
    if totalFrames >= 1 && fps < 0.0 && second >= 0 {
      assert second as real * fps <= 0.0;
    }
  }

  lemma CeilOfQuotient(totalFrames: int, fps: real)
    requires totalFrames >= 1 && fps > 0.0
    ensures var n := Ceil(totalFrames as real / fps);
            n >= 1 && (n - 1) as real * fps < totalFrames as real <= n as real * fps
  {
    var q := totalFrames as real / fps;
    DivMul(totalFrames as real, fps);
    assert q > 0.0;
    var n := Ceil(q);
    RealMulMono((n - 1) as real, q, fps);
    if q < n as real {
      RealMulMono(q, n as real, fps);
    }
  }

  /** At one frame a second or more, every second of the timeline is a frame of its own: the clamp to the last frame
  never acts, and different seconds map to different frames. */
  lemma TimelineInjective(totalFrames: int, fps: real, s: int, t: int)
    requires totalFrames >= 1 && fps >= 1.0
    requires 0 <= s < t < TimelineLen(totalFrames, fps)
    ensures TimelineToFrame(t, fps, totalFrames) == (t as real * fps).Floor
    ensures TimelineToFrame(s, fps, totalFrames) < TimelineToFrame(t, fps, totalFrames)
  {
    hide TimelineToFrame, TimelineLen;
    BelowTotal(totalFrames, fps, t);
    BelowTotal(totalFrames, fps, s);
    RealStep(s as real, t as real, fps);
  }

  lemma RealStep(s: real, t: real, fps: real)
    requires t >= s + 1.0 && fps >= 1.0
    ensures (s * fps).Floor < (t * fps).Floor
  {
    assert t * fps - s * fps == (t - s) * fps;
    assert (t - s) * fps >= 1.0 * fps by {
      if t - s > 1.0 {
        RealMulMono(1.0, t - s, fps);
      }
    }
  }

  lemma BelowTotal(totalFrames: int, fps: real, t: int)
    requires totalFrames >= 1 && fps >= 1.0 && 0 <= t < TimelineLen(totalFrames, fps)
    ensures TimelineToFrame(t, fps, totalFrames) == (t as real * fps).Floor
  {
    var q := totalFrames as real / fps;
    DivMul(totalFrames as real, fps);
    assert q > 0.0;
    assert t as real < q;
    RealMulMono(t as real, q, fps);
    assert 0.0 <= t as real * fps < totalFrames as real;
  }

  // ---------------------------------------------------------------- the window of a question

  /** `_active_range` of LVBench: the window of the question if it names one that can be read, else the whole video. */
  function ActiveRange(num: Numerals, reference: string, frameCount: int): (r: (int, int))
    ensures frameCount >= 1 ==> 0 <= r.0 <= r.1 < frameCount
  {
    match ParseReference(num, reference, frameCount)
    case Some(window) => window
    case None => (0, Max(0, frameCount - 1))
  }

  /** The window is exactly the part of the video that the question refers to: the last second if the reference lies
  behind the end, and the whole video if there is no reference that can be read. */
  lemma WindowIsReference(num: Numerals, text: string, frameCount: int, second: int)
    requires 0 <= second < frameCount
    ensures var (lo, hi) := ActiveRange(num, text, frameCount);
            match Times(num, text)
            case None => (lo, hi) == (0, frameCount - 1)
            case Some((startS, endS)) =>
              if Meets(startS, endS, frameCount) then lo <= second <= hi <==> Touched(startS, endS, second)
              else lo == hi == frameCount - 1
  {
    hide Times, Touched, TimeRange;
    if Times(num, text).Some? {
      var (startS, endS) := Times(num, text).value;
      TimesNotNegative(num, text);
      WindowExactly(startS, endS, frameCount);
    }
  }

  // ---------------------------------------------------------------- the adapter

  /** The positions inside the window that were seen, counted from its start. */
  function LocalSeen(seen: seq<int>, start: int, end: int): seq<int> {
    if seen == [] then []
    else if start <= seen[0] <= end then [seen[0] - start] + LocalSeen(seen[1..], start, end)
    else LocalSeen(seen[1..], start, end)
  }

  lemma {:induction false} LocalSeenMembers(seen: seq<int>, start: int, end: int, x: int)
    ensures x in LocalSeen(seen, start, end) <==> x + start in seen && start <= x + start <= end
  {
    if seen != [] {
      assert seen == [seen[0]] + seen[1..];
      LocalSeenMembers(seen[1..], start, end, x);
    }
  }

  function Shifted(c: seq<int>, d: int): (r: seq<int>)
    ensures |r| == |c| && forall i :: 0 <= i < |c| ==> r[i] == c[i] + d
  {
    seq(|c|, i requires 0 <= i < |c| => c[i] + d)
  }

  /** The candidates of a long video are proposed inside the window and moved back to it. */
  ghost predicate WindowCandidates(start: int, end: int, k: int, seen: seq<int>, r: seq<int>) {
    exists c :: ProposedFor(end - start + 1, k, LocalSeen(seen, start, end), c) && r == Shifted(c, start)
  }

  predicate Lenient(reason: Reason) {
    reason.InvalidAnswerLetter? || reason.MissingFramesTag? || reason.FramesNotInCandidates? || reason.InvalidFrames?
  }

  ghost predicate IsLongVideo(cfg: Config, ds: Adapter, start: int, end: int) {
    && ds.initialFrames == SampleInclusive(start, end, cfg.maxFrames)
    && ds.fallbackFrames == SampleInclusive(start, end, 1)
    && (forall round: nat, k, seen :: WindowCandidates(start, end, k, seen, ds.candidates(round, k, seen)))
    && (forall round: nat, seen :: NewFrames(ds.frameCount, seen, ds.sampleUnseen(round, seen)))
    && (forall s :: ds.judge.normalize(s) == NormalizeAnswer(s, Labels(ds.numChoices)))
    && (forall s, n: nat :: ds.judge.summaryValid(s, n) && !ds.judge.summaryStale(s, n) && ds.commits(s, n))
    && (forall s :: !ds.judge.rangeSyntax(s))
    && (forall reason :: ds.retryable(reason) == !reason.FramesOutOfRange?)
    && (forall reason :: ds.countExhausted(reason) == Lenient(reason) && ds.clearsPlan(reason) == Lenient(reason))
  }

  /** What is proposed are new positions of the window, as many as asked for or as it has. */
  lemma WindowProposal(start: int, end: int, k: int, seen: seq<int>, r: seq<int>)
    requires start <= end && WindowCandidates(start, end, k, seen, r)
    ensures AllIn(r, start, end + 1) && Distinct(r) && forall x :: x in r ==> x !in seen
    ensures |r| == Max(0, Min(k, end - start + 1 - |Elems(LocalSeen(seen, start, end))|))
    ensures k >= 1 && |seen| < end - start + 1 ==> r != []
  {
    var local := LocalSeen(seen, start, end);
    var c :| ProposedFor(end - start + 1, k, local, c) && r == Shifted(c, start);
    forall x | x in r ensures start <= x < end + 1 && x !in seen {
      var i :| 0 <= i < |r| && r[i] == x;
      var y := c[i];
      assert y in c && y !in local;
      LocalSeenMembers(seen, start, end, y);
    }
    LocalSeenSmall(seen, start, end);
    ElemsSmall(local);
    forall x | x in local ensures 0 <= x < end - start + 1 {
      LocalSeenMembers(seen, start, end, x);
    }
    assert AllIn(local, 0, end - start + 1);
  }

  /** Of positions of the window, none is left out. */
  lemma {:induction false} LocalSeenAll(seen: seq<int>, start: int, end: int)
    requires AllIn(seen, start, end + 1)
    ensures LocalSeen(seen, start, end) == Shifted(seen, -start)
  {
    if seen != [] {
      assert seen[0] in seen;
      forall x | x in seen[1..] ensures start <= x < end + 1 {
        assert x in seen;
      }
      LocalSeenAll(seen[1..], start, end);
      assert [seen[0] - start] + Shifted(seen[1..], -start) == Shifted(seen, -start);
    }
  }

  lemma LocalSeenCard(seen: seq<int>, start: int, end: int)
    requires AllIn(seen, start, end + 1) && Distinct(seen)
    ensures |Elems(LocalSeen(seen, start, end))| == |seen|
  {
    LocalSeenAll(seen, start, end);
    DistinctCard(Shifted(seen, -start));
  }

  lemma {:induction false} LocalSeenSmall(seen: seq<int>, start: int, end: int)
    ensures |LocalSeen(seen, start, end)| <= |seen|
  {
    if seen != [] {
      LocalSeenSmall(seen[1..], start, end);
    }
  }

  lemma LongVideoJudge(cfg: Config, ds: Adapter, start: int, end: int)
    requires IsLongVideo(cfg, ds, start, end)
    ensures JudgeServes(ds, "")
  {
    LabelsNormalize(ds);
  }

  lemma LongVideoHooks(cfg: Config, ds: Adapter, start: int, end: int)
    requires IsLongVideo(cfg, ds, start, end) && 0 <= start <= end < ds.frameCount && cfg.maxFrames >= 0
    ensures HooksInRange(ds)
    ensures AllIn(ds.initialFrames, start, end + 1) && AllIn(ds.fallbackFrames, start, end + 1)
    ensures |ds.fallbackFrames| == 1
  {
    if cfg.maxFrames >= 1 {
      SampleInclusiveSize(start, end, cfg.maxFrames);
    }
    SampleInclusiveSize(start, end, 1);
    forall round: nat, k, seen ensures AllIn(ds.candidates(round, k, seen), 0, ds.frameCount) {
      WindowProposal(start, end, k, seen, ds.candidates(round, k, seen));
    }
  }

  // ---------------------------------------------------------------- frames stay in the window

  /** Frames are picked from the candidates, by ID or by being held to them. */
  predicate ByCandidates(cfg: Config) { InForce(cfg) && CandidateCount(cfg) >= 1 }

  /** A window of `w` frames lasts to the end: all rounds but the last cannot use it up. */
  predicate Lasts(cfg: Config, w: int) { cfg.maxRounds <= 1 || w > Reach(cfg, cfg.maxRounds - 1) }

  ghost predicate InWindow(cfg: Config, st: State, start: int, end: int) {
    && AllIn(st.seen, start, end + 1) && |st.seen| <= Reach(cfg, st.round)
    && (st.phase.Between? && st.round < cfg.maxRounds ==>
          AllIn(st.plan, start, end + 1) && (st.round > 0 ==> |st.plan| <= PerRound(cfg)))
    && (st.phase.Running? && st.round < cfg.maxRounds ==>
          1 <= |st.candidates| <= CandidateCount(cfg) && AllIn(st.candidates, start, end + 1))
  }

  lemma WindowAttempt(cfg: Config, ds: Adapter, st: State, raw: RawOutput, start: int, end: int)
    requires IsLongVideo(cfg, ds, start, end) && 0 <= start <= end < ds.frameCount && cfg.maxFrames >= 1
    requires ByCandidates(cfg) && st.phase.Running? && InWindow(cfg, st, start, end)
    ensures InWindow(cfg, Attempt(cfg, ds, st, raw), start, end)
  {
    hide Decide, HooksInRange, IsLongVideo, Reach, CandidateCount;
    LongVideoHooks(cfg, ds, start, end);
    AttemptKeeps(cfg, ds, st, raw);
    var t := TurnOf(cfg, ds, st);
    if st.round < cfg.maxRounds && Decide(ds.judge, t, raw).SelectDecision? {
      AcceptedSelect(ds.judge, t, raw);
      PlanFromCandidates(Decide(ds.judge, t, raw).frames, st.candidates);
    }
  }

  lemma WindowEnters(cfg: Config, ds: Adapter, st: State, start: int, end: int)
    requires IsLongVideo(cfg, ds, start, end) && 0 <= start <= end < ds.frameCount && cfg.maxFrames >= 1
    requires ByCandidates(cfg) && InWindow(cfg, st, start, end) && st.phase.Between? && st.round < cfg.maxRounds
    ensures var next := Settle(cfg, ds, st);
            && next.phase.Running? && next.round == st.round + 1
            && AllIn(next.seen, start, end + 1) && |next.seen| <= Reach(cfg, next.round)
            && next.candidates == ds.candidates(next.round, CandidateCount(cfg), next.seen)
  {
    hide Settle, ShownFrames, HooksInRange, IsLongVideo, CandidateCount, Reach;
    LongVideoHooks(cfg, ds, start, end);
    Entering(cfg, ds, st);
    ShownInWindow(cfg, ds, st.plan, st.seen, start, end);
    ReachNext(cfg, st.round);
  }

  lemma WindowSettle(cfg: Config, ds: Adapter, st: State, start: int, end: int)
    requires IsLongVideo(cfg, ds, start, end) && 0 <= start <= end < ds.frameCount && cfg.maxFrames >= 1
    requires ByCandidates(cfg) && Lasts(cfg, end - start + 1) && InWindow(cfg, st, start, end)
    ensures InWindow(cfg, Settle(cfg, ds, st), start, end)
  {
    hide Settle, HooksInRange, IsLongVideo, CandidateCount, Reach;
    if st.phase.Between? && st.round < cfg.maxRounds {
      WindowEnters(cfg, ds, st, start, end);
      var next := Settle(cfg, ds, st);
      CandidatesInWindow(cfg, ds, next.round, next.seen, start, end);
      if next.round < cfg.maxRounds {
        ReachGrows(cfg, next.round, cfg.maxRounds - 1);
      }
    } else {
      SettleCountsSeen(cfg, ds, st);
    }
  }

  lemma CandidatesInWindow(cfg: Config, ds: Adapter, round: nat, seen: seq<int>, start: int, end: int)
    requires IsLongVideo(cfg, ds, start, end) && start <= end
    ensures var c := ds.candidates(round, CandidateCount(cfg), seen);
            AllIn(c, start, end + 1) && |c| <= Max(0, CandidateCount(cfg))
            && (CandidateCount(cfg) >= 1 && |seen| < end - start + 1 ==> c != [])
  {
    WindowProposal(start, end, CandidateCount(cfg), seen, ds.candidates(round, CandidateCount(cfg), seen));
  }

  lemma ShownInWindow(cfg: Config, ds: Adapter, plan: seq<int>, seen: seq<int>, start: int, end: int)
    requires AllIn(plan, start, end + 1) && AllIn(ds.fallbackFrames, start, end + 1)
    requires cfg.maxFrames >= 1 && |ds.fallbackFrames| == 1
    ensures var shown := ShownFrames(cfg, ds, plan, seen);
            AllIn(shown, start, end + 1) && |shown| <= cfg.maxFrames && |shown| <= Max(1, |plan|)
  {
  }

  lemma {:induction false} RunInWindow(cfg: Config, ds: Adapter, outs: seq<Option<RawOutput>>, start: int, end: int)
    requires IsLongVideo(cfg, ds, start, end) && 0 <= start <= end < ds.frameCount && cfg.maxFrames >= 1
    requires ByCandidates(cfg) && Lasts(cfg, end - start + 1)
    ensures InWindow(cfg, Run(cfg, ds, outs), start, end)
  {
    hide Attempt, Settle, IsLongVideo, InWindow;
    LongVideoHooks(cfg, ds, start, end);
    if outs == [] {
      WindowStart(cfg, ds, start, end);
      WindowSettle(cfg, ds, Initial(ds), start, end);
    } else {
      var shorter, out := outs[..|outs| - 1], outs[|outs| - 1];
      var st := Run(cfg, ds, shorter);
      RunInWindow(cfg, ds, shorter, start, end);
      if st.phase.Running? {
        if out.Some? {
          WindowAttempt(cfg, ds, st, out.value, start, end);
          WindowSettle(cfg, ds, Attempt(cfg, ds, st, out.value), start, end);
        } else {
          WindowRaise(cfg, st, start, end);
        }
      }
    }
  }

  lemma WindowStart(cfg: Config, ds: Adapter, start: int, end: int)
    requires AllIn(ds.initialFrames, start, end + 1)
    ensures InWindow(cfg, Initial(ds), start, end)
  {
  }

  lemma WindowRaise(cfg: Config, st: State, start: int, end: int)
    requires InWindow(cfg, st, start, end)
    ensures InWindow(cfg, st.(phase := Raised), start, end)
  {
  }

  /** Some round of the run shows a frame outside the window. */
  ghost predicate Leaves(st: State, start: int, end: int) {
    exists r, f :: 0 <= r < |st.rounds| && f in st.rounds[r] && !(start <= f <= end)
  }

  lemma StaysInside(cfg: Config, ds: Adapter, outs: seq<Option<RawOutput>>, start: int, end: int)
    requires IsLongVideo(cfg, ds, start, end) && 0 <= start <= end < ds.frameCount && cfg.maxFrames >= 1
    requires ByCandidates(cfg) && (Lasts(cfg, end - start + 1) || ds.frameCount == end - start + 1)
    ensures !Leaves(Run(cfg, ds, outs), start, end)
  {
    hide Run, IsLongVideo, Lasts;
    LongVideoHooks(cfg, ds, start, end);
    SeenInRange(cfg, ds, outs);
    if Lasts(cfg, end - start + 1) {
      RunInWindow(cfg, ds, outs, start, end);
    }
    var st := Run(cfg, ds, outs);
    forall r, f | 0 <= r < |st.rounds| && f in st.rounds[r] ensures start <= f <= end {
      assert Within(st.rounds[r], st.seen);
    }
  }

  // ---------------------------------------------------------------- and when they need not

  /** A run that has asked for candidates only, in the round it has just entered. */
  ghost predicate Filling(cfg: Config, ds: Adapter, st: State, start: int, end: int) {
    && st.phase.Running? && 0 < st.round == |st.rounds| && Distinct(st.seen) && AllIn(st.seen, start, end + 1)
    && st.candidates == ds.candidates(st.round, CandidateCount(cfg), st.seen)
  }

  lemma FillStart(cfg: Config, ds: Adapter, start: int, end: int)
    requires IsLongVideo(cfg, ds, start, end) && 0 <= start <= end < ds.frameCount && cfg.maxFrames >= 1
    requires ByCandidates(cfg) && cfg.maxRounds >= 1
    ensures var st := Run(cfg, ds, []);
            Filling(cfg, ds, st, start, end) && st.round == 1 && |st.seen| == Min(cfg.maxFrames, end - start + 1)
  {
    hide Settle, CandidateCount, IsLongVideo;
    InitialPlan(cfg, ds, start, end);
    RunStart(cfg, ds);
    var init := Initial(ds);
    PlanShown(cfg, ds, init);
    assert [] + init.plan == init.plan;
  }

  lemma InitialPlan(cfg: Config, ds: Adapter, start: int, end: int)
    requires IsLongVideo(cfg, ds, start, end) && 0 <= start <= end < ds.frameCount && cfg.maxFrames >= 1
    ensures var plan := Initial(ds).plan;
            Distinct(plan) && AllIn(plan, start, end + 1) && |plan| == Min(cfg.maxFrames, end - start + 1)
  {
    hide SampleInclusive;
    var frames := SampleInclusive(start, end, cfg.maxFrames);
    SampleInclusiveSize(start, end, cfg.maxFrames);
    forall i | 0 <= i < |frames| ensures frames[i] >= 0 {
      var x := frames[i];
      assert x in frames;
    }
    NonNegativeId(frames);
  }

  /** As long as the window has unseen frames, all the candidates that fit can be asked for and are shown next. */
  lemma FillStep(cfg: Config, ds: Adapter, st: State, start: int, end: int) returns (raw: RawOutput)
    requires IsLongVideo(cfg, ds, start, end) && 0 <= start <= end < ds.frameCount && cfg.maxFrames >= 1
    requires ByCandidates(cfg) && Filling(cfg, ds, st, start, end)
    requires st.round < cfg.maxRounds && |st.seen| < end - start + 1
    ensures var next := Step(cfg, ds, st, Some(raw));
            Filling(cfg, ds, next, start, end) && next.round == st.round + 1
            && |next.seen| == Min(end - start + 1, |st.seen| + PerRound(cfg))
  {
    hide IsLongVideo, JudgeServes, Step, CandidateCount;
    var c := st.candidates;
    FillingProposal(cfg, ds, st, start, end);
    var picked := Take(c, cfg.maxFrames);
    var plan: seq<nat> := AsNats(picked, start);
    LongVideoJudge(cfg, ds, start, end);
    raw := AskedShown(cfg, ds, st, "", plan);
    JoinDistinct(st.seen, picked);
  }

  lemma FillingProposal(cfg: Config, ds: Adapter, st: State, start: int, end: int)
    requires IsLongVideo(cfg, ds, start, end) && start <= end && Filling(cfg, ds, st, start, end)
    ensures AllIn(st.candidates, start, end + 1) && Distinct(st.candidates)
    ensures forall x :: x in st.candidates ==> x !in st.seen
    ensures |st.candidates| == Max(0, Min(CandidateCount(cfg), end - start + 1 - |st.seen|))
  {
    hide CandidateCount, LocalSeen, WindowCandidates;
    WindowProposal(start, end, CandidateCount(cfg), st.seen, st.candidates);
    LocalSeenCard(st.seen, start, end);
  }

  lemma JoinDistinct(a: seq<int>, b: seq<int>)
    requires Distinct(a) && Distinct(b) && forall x :: x in b ==> x !in a
    ensures Distinct(a + b)
  {
    forall i | 0 <= i < |b| ensures b[i] !in a {
      var x := b[i];
      assert x in b;
    }
  }

  /** Once the window is used up there are no candidates, and then any unseen frame of the video, in the window or not,
  can be asked for and is shown in the next round. */
  lemma EscapeOnceExhausted(cfg: Config, ds: Adapter, st: State, start: int, end: int, frame: nat)
    returns (raw: RawOutput)
    requires IsLongVideo(cfg, ds, start, end) && cfg.maxFrames >= 1
    requires st.phase.Running? && 0 < st.round < cfg.maxRounds && st.candidates == []
    requires frame < ds.frameCount && frame !in st.seen
    ensures var next := Step(cfg, ds, st, Some(raw));
            next.phase.Running? && next.rounds == st.rounds + [[frame]]
  {
    hide IsLongVideo, JudgeServes, Step;
    LongVideoJudge(cfg, ds, start, end);
    var plan: seq<nat> := [frame];
    raw := AskedShown(cfg, ds, st, "", plan);
  }

  /** From a filling run with enough rounds left to use up the window, the model can get out of it. */
  lemma {:induction false} Escape(cfg: Config, ds: Adapter, outs: seq<Option<RawOutput>>, start: int, end: int)
    returns (more: seq<Option<RawOutput>>)
    requires IsLongVideo(cfg, ds, start, end) && 0 <= start <= end < ds.frameCount && cfg.maxFrames >= 1
    requires ByCandidates(cfg) && end - start + 1 < ds.frameCount
    requires var st := Run(cfg, ds, outs);
             Filling(cfg, ds, st, start, end) && st.round < cfg.maxRounds
             && |st.seen| + (cfg.maxRounds - 1 - st.round) * PerRound(cfg) >= end - start + 1
    ensures Leaves(Run(cfg, ds, more), start, end)
    decreases cfg.maxRounds - Run(cfg, ds, outs).round
  {
    hide Step, IsLongVideo, CandidateCount, LocalSeen, Run;
    var st, w := Run(cfg, ds, outs), end - start + 1;
    if |st.seen| >= w {
      NoCandidatesLeft(cfg, ds, st, start, end);
      var frame: nat := if start > 0 then 0 else end + 1;
      var raw := EscapeOnceExhausted(cfg, ds, st, start, end, frame);
      more := outs + [Some(raw)];
      RunNext(cfg, ds, outs, Some(raw));
      var next := Run(cfg, ds, more);
      assert next.rounds[|st.rounds|] == [frame] && frame in next.rounds[|st.rounds|];
    } else {
      var raw := FillStep(cfg, ds, st, start, end);
      RunNext(cfg, ds, outs, Some(raw));
      MulNext(cfg.maxRounds - 2 - st.round, PerRound(cfg));
      RoundsLeft(cfg.maxRounds - 1 - st.round, PerRound(cfg), w - |st.seen|);
      more := Escape(cfg, ds, outs + [Some(raw)], start, end);
    }
  }

  lemma NoCandidatesLeft(cfg: Config, ds: Adapter, st: State, start: int, end: int)
    requires IsLongVideo(cfg, ds, start, end) && start <= end
    requires Filling(cfg, ds, st, start, end) && |st.seen| >= end - start + 1
    ensures st.candidates == []
  {
    hide IsLongVideo;
    FillingProposal(cfg, ds, st, start, end);
  }

  lemma GetsOutside(cfg: Config, ds: Adapter, start: int, end: int) returns (outs: seq<Option<RawOutput>>)
    requires IsLongVideo(cfg, ds, start, end) && 0 <= start <= end < ds.frameCount && cfg.maxFrames >= 1
    requires ByCandidates(cfg) && !Lasts(cfg, end - start + 1) && ds.frameCount != end - start + 1
    ensures Leaves(Run(cfg, ds, outs), start, end)
  {
    hide IsLongVideo, CandidateCount, Run;
    FillStart(cfg, ds, start, end);
    MulMono(0, cfg.maxRounds - 2, PerRound(cfg));
    outs := Escape(cfg, ds, [], start, end);
  }

  /** Time-window safety, exactly: when frames are picked by candidates, every frame shown in any run, through selects,
  retries, cleared plans and fallbacks, lies in the window of the question if and only if the window is the whole
  video, or there is no second round, or the window has more frames than all rounds but the last can show. */
  lemma WindowSafety(cfg: Config, ds: Adapter, num: Numerals, reference: string)
    requires var (start, end) := ActiveRange(num, reference, ds.frameCount); IsLongVideo(cfg, ds, start, end)
    requires ds.frameCount >= 1 && cfg.maxFrames >= 1 && ByCandidates(cfg)
    ensures var (start, end) := ActiveRange(num, reference, ds.frameCount);
            var w := end - start + 1;
            (forall outs :: !Leaves(Run(cfg, ds, outs), start, end)) <==>
              cfg.maxRounds <= 1 || ds.frameCount == w
              || w > cfg.maxFrames + (cfg.maxRounds - 2) * Min(cfg.maxFrames, CandidateCount(cfg))
  {
    hide Run, IsLongVideo, ActiveRange, Leaves, CandidateCount;
    var (start, end) := ActiveRange(num, reference, ds.frameCount);
    ActiveRangeIn(num, reference, ds.frameCount);
    if Lasts(cfg, end - start + 1) || ds.frameCount == end - start + 1 {
      forall outs ensures !Leaves(Run(cfg, ds, outs), start, end) {
        StaysInside(cfg, ds, outs, start, end);
      }
    } else {
      var outs := GetsOutside(cfg, ds, start, end);
    }
  }

  lemma ActiveRangeIn(num: Numerals, reference: string, frameCount: int)
    requires frameCount >= 1
    ensures var (start, end) := ActiveRange(num, reference, frameCount); 0 <= start <= end < frameCount
  {
  }
}
