/** When a strict run on the NExT-QA dataset can get into a state in which no output of the model is accepted any more.
*/
module StuckRuns {
  import opened Py
  import opened Protocol
  import opened Policy
  import opened Engine
  import opened RunFacts
  import opened StrictRuns
  import opened Frames
  import opened Candidates
  import opened NextQa

  // ---------------------------------------------------------------- no run sees more than its rounds can show

  /** What is known of a state in which the model is asked. */
  ghost predicate Asked(cfg: Config, ds: Adapter, st: State) {
    && st.phase.Running? && 1 <= st.round <= cfg.maxRounds && Distinct(st.seen) && AllIn(st.seen, 0, ds.frameCount)
    && AllIn(st.candidates, 0, ds.frameCount) && Distinct(st.candidates) && Disjoint(st.candidates, st.seen)
    && (cfg.useCandidates ==> |st.candidates| == Max(0, Min(CandidateCount(cfg), ds.frameCount - |st.seen|)))
    && (!cfg.useCandidates ==> st.candidates == [])
  }

  lemma RunAsked(cfg: Config, ds: Adapter, good: string -> bool, outs: seq<Option<RawOutput>>)
    requires IsNextQa(cfg, ds, good) && ds.frameCount >= 1 && cfg.maxFrames >= 0 && Run(cfg, ds, outs).phase.Running?
    ensures Asked(cfg, ds, Run(cfg, ds, outs))
  {
    hide Run, RoundsSeen, CandidateCount, HooksInRange, Distinct;
    var st := Run(cfg, ds, outs);
    HooksHold(cfg, ds, good);
    RunPaced(cfg, ds, outs);
    SeenInRange(cfg, ds, outs);
    RunCandidates(cfg, ds, outs);
    if cfg.useCandidates {
      assert ProposedFor(ds.frameCount, CandidateCount(cfg), st.seen, st.candidates);
      DistinctCard(st.seen);
    } else {
      NothingAtAll();
    }
  }

  lemma NothingAtAll()
    ensures Distinct<int>([])
  {
  }

  lemma ShownCount(cfg: Config, ds: Adapter, plan: seq<int>, seen: seq<int>)
    requires |ds.fallbackFrames| == 1 && cfg.maxFrames >= 1
    ensures |ShownFrames(cfg, ds, plan, seen)| <= Min(cfg.maxFrames, Max(1, |plan|))
  {
  }

  /** An accepted plan is no longer than a round after the first can show. */
  lemma PlanCount(cfg: Config, ds: Adapter, st: State, plan: seq<int>)
    requires Asked(cfg, ds, st) && GoodPlan(TurnOf(cfg, ds, st), plan) && CandidateCount(cfg) >= 1
    ensures 1 <= |plan| <= PerRound(cfg)
  {
    hide CandidateCount;
    RoomFor(st.seen, plan, ds.frameCount);
    if InForce(cfg) {
      PlanFromCandidates(plan, st.candidates);
    }
  }

  lemma PerRoundPositive(cfg: Config)
    requires cfg.maxFrames >= 1 && CandidateCount(cfg) >= 1
    ensures PerRound(cfg) >= 1
  {
  }

  lemma ReachSettle(cfg: Config, ds: Adapter, st: State)
    requires cfg.maxFrames >= 1 && CandidateCount(cfg) >= 1 && |ds.fallbackFrames| == 1
    requires |st.seen| <= Reach(cfg, st.round) && (st.phase.Between? && st.round > 0 ==> |st.plan| <= PerRound(cfg))
    ensures var next := Settle(cfg, ds, st); |next.seen| <= Reach(cfg, next.round)
  {
    hide Settle, ShownFrames, PerRound, CandidateCount, Reach;
    if st.phase.Between? && st.round < cfg.maxRounds {
      Entering(cfg, ds, st);
      ShownCount(cfg, ds, st.plan, st.seen);
      ReachNext(cfg, st.round);
      PerRoundPositive(cfg);
    } else {
      SettleCountsSeen(cfg, ds, st);
    }
  }

  lemma ReachStep(cfg: Config, ds: Adapter, st: State, raw: RawOutput)
    requires cfg.strict && cfg.maxFrames >= 1 && CandidateCount(cfg) >= 1 && |ds.fallbackFrames| == 1
    requires Asked(cfg, ds, st) && st.phase.Running? && |st.seen| <= Reach(cfg, st.round)
    ensures var next := Step(cfg, ds, st, Some(raw)); |next.seen| <= Reach(cfg, next.round)
  {
    hide Decide, Settle, Asked, Reach, PerRound, CandidateCount, TurnOf;
    AttemptKeeps(cfg, ds, st, raw);
    if Decide(ds.judge, TurnOf(cfg, ds, st), raw).SelectDecision? {
      AcceptedSelect(ds.judge, TurnOf(cfg, ds, st), raw);
      PlanCount(cfg, ds, st, Decide(ds.judge, TurnOf(cfg, ds, st), raw).frames);
    }
    ReachSettle(cfg, ds, Attempt(cfg, ds, st, raw));
  }

  lemma {:induction false} RunInReach(cfg: Config, ds: Adapter, good: string -> bool, outs: seq<Option<RawOutput>>)
    requires IsNextQa(cfg, ds, good) && ds.frameCount >= 1 && cfg.strict
    requires cfg.maxFrames >= 1 && CandidateCount(cfg) >= 1
    ensures var st := Run(cfg, ds, outs); |st.seen| <= Reach(cfg, st.round)
  {
    hide Step, Asked, IsNextQa, Reach, CandidateCount;
    OneFallback(cfg, ds, good);
    if outs == [] {
      RunStart(cfg, ds);
      NothingSeen(cfg, ds);
      ReachSettle(cfg, ds, Initial(ds));
    } else {
      var shorter, out := outs[..|outs| - 1], outs[|outs| - 1];
      var st := Run(cfg, ds, shorter);
      RunInReach(cfg, ds, good, shorter);
      if st.phase.Running? {
        RunAsked(cfg, ds, good, shorter);
        if out.Some? {
          ReachStep(cfg, ds, st, out.value);
        } else {
          RaisedSame(cfg, ds, st);
        }
      }
    }
  }

  lemma NothingSeen(cfg: Config, ds: Adapter)
    ensures var init := Initial(ds); init.seen == [] && init.round == 0 && Reach(cfg, 0) == 0
  {
  }

  lemma RaisedSame(cfg: Config, ds: Adapter, st: State)
    requires st.phase.Running?
    ensures var next := Step(cfg, ds, st, None); next.seen == st.seen && next.round == st.round
  {
  }

  lemma OneFallback(cfg: Config, ds: Adapter, good: string -> bool)
    requires IsNextQa(cfg, ds, good) && ds.frameCount >= 1
    ensures |ds.fallbackFrames| == 1
  {
  }

  // ---------------------------------------------------------------- and some run sees that much

  lemma FirstCount(cfg: Config, ds: Adapter, good: string -> bool)
    requires IsNextQa(cfg, ds, good) && ds.frameCount >= 1 && cfg.maxFrames >= 1 && cfg.maxRounds >= 1
    ensures var st := Run(cfg, ds, []);
            st.phase.Running? && st.round == 1 && |st.seen| == Min(cfg.maxFrames, ds.frameCount)
  {
    hide Settle, ShownFrames, SampleUniform, IsNextQa, CandidateCount;
    RunStart(cfg, ds);
    Entering(cfg, ds, Initial(ds));
    FirstRound(cfg, ds, good, []);
    SampleCount(ds.frameCount, cfg.maxFrames);
    var st, s := Run(cfg, ds, []), SampleUniform(ds.frameCount, cfg.maxFrames);
    assert st.rounds == [st.shown] && st.shown == s && st.seen == AppendNew([], s);
    assert Elems(st.seen) == Elems(s);
    NothingAtAll();
    DistinctCard(st.seen);
  }

  /** The frames that the next request can be made of: the candidates, or all that are left. */
  function Pool(cfg: Config, ds: Adapter, st: State): seq<int> {
    if InForce(cfg) then st.candidates else Remaining(ds.frameCount, st.seen)
  }

  lemma PoolSize(cfg: Config, ds: Adapter, st: State)
    requires Asked(cfg, ds, st) && ds.frameCount >= 1 && CandidateCount(cfg) >= 1
    ensures var pool := Pool(cfg, ds, st);
            && Distinct(pool) && AllIn(pool, 0, ds.frameCount) && Disjoint(pool, st.seen)
            && Min(cfg.maxFrames, |pool|) == Min(PerRound(cfg), ds.frameCount - |st.seen|)
  {
    hide CandidateCount, Remaining;
    PigeonHole(st.seen, 0, ds.frameCount);
    if !InForce(cfg) {
      RemainingCount(ds.frameCount, st.seen);
      DistinctCard(st.seen);
    }
  }

  /** As long as there are unseen frames, as many as a round can show are asked for. */
  lemma FillStep(cfg: Config, ds: Adapter, st: State, summary: string) returns (raw: RawOutput)
    requires Asked(cfg, ds, st) && JudgeServes(ds, summary)
    requires ds.frameCount >= 1 && cfg.maxFrames >= 1 && CandidateCount(cfg) >= 1
    requires st.phase.Running? && 0 < st.round < cfg.maxRounds && |st.seen| < ds.frameCount
    ensures var next := Step(cfg, ds, st, Some(raw));
            next.phase.Running? && next.round == st.round + 1
            && |next.seen| == Min(ds.frameCount, |st.seen| + PerRound(cfg))
  {
    hide Step, JudgeServes, CandidateCount, Asked;
    PoolSize(cfg, ds, st);
    var picked := Take(Pool(cfg, ds, st), cfg.maxFrames);
    var plan: seq<nat> := AsNats(picked, 0);
    PickedGood(cfg, ds, st, picked);
    raw := AskedShown(cfg, ds, st, summary, plan);
  }

  lemma PickedGood(cfg: Config, ds: Adapter, st: State, picked: seq<int>)
    requires Asked(cfg, ds, st) && ds.frameCount >= 1 && cfg.maxFrames >= 1 && CandidateCount(cfg) >= 1
    requires |st.seen| < ds.frameCount
    requires picked == Take(Pool(cfg, ds, st), cfg.maxFrames)
    ensures GoodPlan(TurnOf(cfg, ds, st), picked)
  {
    hide CandidateCount, Remaining, MinSelects, MustAnswer;
    PoolSize(cfg, ds, st);
  }

  /** A run that has seen everything by round `last`. */
  lemma {:induction false} Fill(cfg: Config, ds: Adapter, good: string -> bool, outs: seq<Option<RawOutput>>, last: nat,
                                summary: string)
    returns (more: seq<Option<RawOutput>>)
    requires IsNextQa(cfg, ds, good) && ds.frameCount >= 1 && cfg.maxFrames >= 1 && CandidateCount(cfg) >= 1
    requires JudgeServes(ds, summary) && last < cfg.maxRounds
    requires var st := Run(cfg, ds, outs);
             && st.phase.Running? && st.round <= last
             && |st.seen| + (last - st.round) * PerRound(cfg) >= ds.frameCount
    ensures var st := Run(cfg, ds, more); st.phase.Running? && st.round <= last && |st.seen| >= ds.frameCount
    decreases last - Run(cfg, ds, outs).round
  {
    hide Run, Step, Asked, IsNextQa, JudgeServes, CandidateCount;
    var st := Run(cfg, ds, outs);
    if |st.seen| >= ds.frameCount {
      more := outs;
    } else {
      RunPaced(cfg, ds, outs);
      RunAsked(cfg, ds, good, outs);
      var raw := FillStep(cfg, ds, st, summary);
      RunNext(cfg, ds, outs, Some(raw));
      PerRoundPositive(cfg);
      RoundsLeft(last - st.round, PerRound(cfg), ds.frameCount - |st.seen|);
      MulNext(last - st.round - 1, PerRound(cfg));
      MulMono(0, last - st.round - 1, PerRound(cfg));
      more := Fill(cfg, ds, good, outs + [Some(raw)], last, summary);
    }
  }

  // ---------------------------------------------------------------- exactly when

  /** A strict NExT-QA run can get stuck, with no output left that is accepted, exactly if there is a round in which
  answers are early and, by the last such round, the frames have run out or there is no budget to ask for any. */
  lemma StuckExactly(cfg: Config, ds: Adapter, good: string -> bool, summary: string)
    requires IsNextQa(cfg, ds, good) && ds.frameCount >= 1 && cfg.maxRounds >= 1 && cfg.strict
    requires CandidateCount(cfg) >= 1
    requires good(Strip(summary)) && forall n: nat :: !ds.judge.summaryStale(Strip(summary), n)
    ensures var last := LastEarly(cfg);
            (exists outs :: NoWayOn(cfg, ds, Run(cfg, ds, outs))) <==>
            last >= 1
            && (cfg.maxFrames < 1 || ds.frameCount <= cfg.maxFrames + (last - 1) * PerRound(cfg))
  {
    hide Run, NoWayOn, IsNextQa, HooksInRange, CandidatesServe, JudgeServes, LastEarly, PerRound, CandidateCount;
    var last := LastEarly(cfg);
    HooksHold(cfg, ds, good);
    CandidatesHold(cfg, ds, good);
    JudgeHolds(cfg, ds, good, summary);
    if outs :| NoWayOn(cfg, ds, Run(cfg, ds, outs)) {
      StuckMeans(cfg, ds, good, outs, summary);
    }
    if last >= 1 && (cfg.maxFrames < 1 || ds.frameCount <= cfg.maxFrames + (last - 1) * PerRound(cfg)) {
      var outs := GetsStuck(cfg, ds, good, summary);
    }
  }

  lemma StuckMeans(cfg: Config, ds: Adapter, good: string -> bool, outs: seq<Option<RawOutput>>, summary: string)
    requires IsNextQa(cfg, ds, good) && ds.frameCount >= 1 && cfg.maxRounds >= 1 && cfg.strict
    requires CandidateCount(cfg) >= 1 && HooksInRange(ds) && CandidatesServe(cfg, ds) && JudgeServes(ds, summary)
    requires NoWayOn(cfg, ds, Run(cfg, ds, outs))
    ensures var last := LastEarly(cfg);
            last >= 1 && (cfg.maxFrames < 1 || ds.frameCount <= cfg.maxFrames + (last - 1) * PerRound(cfg))
  {
    hide Run, IsNextQa, HooksInRange, CandidatesServe, JudgeServes, LastEarly, PerRound, CandidateCount;
    var st := Run(cfg, ds, outs);
    NoWayOnExactly(cfg, ds, outs, summary);
    RunPaced(cfg, ds, outs);
    if cfg.maxFrames >= 1 {
      RunInReach(cfg, ds, good, outs);
      PerRoundPositive(cfg);
      ReachGrows(cfg, st.round, LastEarly(cfg));
    }
  }

  /** The stuck run: all the frames that fit are asked for in every round, until there are none. */
  lemma GetsStuck(cfg: Config, ds: Adapter, good: string -> bool, summary: string)
    returns (outs: seq<Option<RawOutput>>)
    requires IsNextQa(cfg, ds, good) && ds.frameCount >= 1 && cfg.maxRounds >= 1 && cfg.strict
    requires CandidateCount(cfg) >= 1 && HooksInRange(ds) && CandidatesServe(cfg, ds) && JudgeServes(ds, summary)
    requires var last := LastEarly(cfg);
             last >= 1 && (cfg.maxFrames < 1 || ds.frameCount <= cfg.maxFrames + (last - 1) * PerRound(cfg))
    ensures NoWayOn(cfg, ds, Run(cfg, ds, outs))
  {
    hide Run, IsNextQa, HooksInRange, CandidatesServe, JudgeServes, LastEarly, PerRound, CandidateCount;
    var last := LastEarly(cfg);
    outs := [];
    if cfg.maxFrames >= 1 {
      FirstCount(cfg, ds, good);
      PerRoundPositive(cfg);
      MulMono(0, last - 1, PerRound(cfg));
      LastEarlyIn(cfg);
      outs := Fill(cfg, ds, good, [], last, summary);
      RunAsked(cfg, ds, good, outs);
      AllSeen(Run(cfg, ds, outs).seen, ds.frameCount);
    } else {
      FirstRunning(cfg, ds);
    }
    NoWayOnExactly(cfg, ds, outs, summary);
  }

  lemma LastEarlyIn(cfg: Config)
    requires cfg.maxRounds >= 1
    ensures LastEarly(cfg) < cfg.maxRounds
  {
  }

  lemma AllSeen(seen: seq<int>, frameCount: int)
    requires Distinct(seen) && AllIn(seen, 0, frameCount) && |seen| >= frameCount >= 1
    ensures |seen| == frameCount
  {
    PigeonHole(seen, 0, frameCount);
  }

  lemma FirstRunning(cfg: Config, ds: Adapter)
    requires cfg.maxRounds >= 1
    ensures var st := Run(cfg, ds, []); st.phase.Running? && st.round == 1
  {
    hide Settle, ShownFrames, CandidateCount;
    RunStart(cfg, ds);
    Entering(cfg, ds, Initial(ds));
  }
}
