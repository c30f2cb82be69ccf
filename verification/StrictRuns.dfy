/** Runs in the strict setting of the paper: rounds, plans and selects march in step, and a run ends decided. */
module StrictRuns {
  import opened Py
  import opened Protocol
  import opened Policy
  import opened Engine
  import opened RunFacts

  /** The frame plans accepted in a run, in order. */
  function Plans(log: seq<LogEntry>): seq<seq<int>> {
    if log == [] then []
    else
      var e := log[|log| - 1];
      Plans(log[..|log| - 1]) + if e.decision.SelectDecision? then [e.decision.frames] else []
  }

  lemma PlansNext(log: seq<LogEntry>, e: LogEntry)
    ensures Plans(log + [e]) == Plans(log) + if e.decision.SelectDecision? then [e.decision.frames] else []
  {
    assert (log + [e])[..|log|] == log;
  }

  ghost predicate Disjoint(a: seq<int>, b: seq<int>) { forall x :: x in a ==> x !in b }

  ghost predicate AllDisjoint(rounds: seq<seq<int>>) {
    forall a, b :: 0 <= a < b < |rounds| ==> Disjoint(rounds[a], rounds[b])
  }

  ghost predicate AllWithin(rounds: seq<seq<int>>, seen: seq<int>) {
    forall r :: 0 <= r < |rounds| ==> Within(rounds[r], seen)
  }

  /** A plan that can be shown as it is: non-empty, without repetition, unseen and within the budget. */
  ghost predicate Showable(plan: seq<int>, seen: seq<int>, budget: int) {
    1 <= |plan| <= budget && Distinct(plan) && Disjoint(plan, seen)
  }

  /** Every round after the first shows each of its frames once. */
  ghost predicate LaterDistinct(rounds: seq<seq<int>>) {
    forall i :: 0 < i < |rounds| ==> Distinct(rounds[i])
  }

  /** One accepted plan for every round entered after the first, shown there verbatim; no two rounds share a frame, and
  no round after the first repeats one. A plan is waiting to be shown only between two rounds, or when the rounds have
  run out. */
  ghost predicate InStep(cfg: Config, ds: Adapter, st: State) {
    var plans := Plans(st.log);
    && |st.rounds| == st.round
    && st.effective == |plans|
    && |plans| == (if st.phase.Between? || st.phase.Exhausted? || st.round == 0 then st.round else st.round - 1)
    && (st.round > 0 ==> st.rounds[0] == ShownFrames(cfg, ds, NonNegative(ds.initialFrames), []))
    && (forall i :: 0 < i < st.round ==> st.rounds[i] == plans[i - 1])
    && AllWithin(st.rounds, st.seen)
    && AllDisjoint(st.rounds)
    && LaterDistinct(st.rounds)
    && st.fallbacks == 0
    && (st.phase.Between? && st.round == 0 ==> st.plan == NonNegative(ds.initialFrames) && st.seen == [])
    && (st.phase.Between? && st.round > 0 ==>
          Showable(st.plan, st.seen, cfg.maxFrames) && st.plan == plans[st.round - 1])
  }

  lemma InStepAttempt(cfg: Config, ds: Adapter, st: State, raw: RawOutput)
    requires cfg.strict && st.phase.Running? && st.round > 0 && InStep(cfg, ds, st)
    ensures InStep(cfg, ds, Attempt(cfg, ds, st, raw))
  {
    hide Decide, AllWithin, AllDisjoint, Plans, ShownFrames, FallbackPlan;
    var e := EntryOf(cfg, ds, st, raw);
    PlansNext(st.log, e);
    if e.decision.SelectDecision? {
      AcceptedSelect(ds.judge, TurnOf(cfg, ds, st), raw);
    }
  }

  lemma ShownVerbatim(cfg: Config, ds: Adapter, plan: seq<int>, seen: seq<int>)
    requires Showable(plan, seen, cfg.maxFrames)
    ensures ShownFrames(cfg, ds, plan, seen) == plan
  {
    forall i | 0 <= i < |plan| ensures plan[i] !in seen {
      var x := plan[i];
      assert x in plan;
    }
    WithoutNone(plan, seen);
  }

  lemma DisjointGrows(rounds: seq<seq<int>>, seen: seq<int>, shown: seq<int>)
    requires AllWithin(rounds, seen) && AllDisjoint(rounds) && (rounds == [] || Disjoint(shown, seen))
    ensures AllWithin(rounds + [shown], AppendNew(seen, shown)) && AllDisjoint(rounds + [shown])
  {
    var all, grown := AppendNew(seen, shown), rounds + [shown];
    forall r | 0 <= r < |grown| ensures Within(grown[r], all) {
      if r < |rounds| {
        assert grown[r] == rounds[r] && Within(rounds[r], seen);
      }
    }
    forall a, b | 0 <= a < b < |grown| ensures Disjoint(grown[a], grown[b]) {
      assert grown[a] == rounds[a] && Within(rounds[a], seen);
      if b < |rounds| {
        assert grown[b] == rounds[b];
      }
    }
  }

  lemma LaterDistinctGrows(rounds: seq<seq<int>>, shown: seq<int>)
    requires LaterDistinct(rounds) && (rounds == [] || Distinct(shown))
    ensures LaterDistinct(rounds + [shown])
  {
  }

  /** The round entered shows the plan that was waiting. */
  lemma PlansShownGrows(rounds: seq<seq<int>>, plans: seq<seq<int>>, shown: seq<int>)
    requires |plans| == |rounds| && (rounds != [] ==> shown == plans[|rounds| - 1])
    requires forall i :: 0 < i < |rounds| ==> rounds[i] == plans[i - 1]
    ensures forall i :: 0 < i < |rounds| + 1 ==> (rounds + [shown])[i] == plans[i - 1]
  {
  }

  lemma InStepEnters(cfg: Config, ds: Adapter, st: State)
    requires InStep(cfg, ds, st) && st.phase.Between? && st.round < cfg.maxRounds
    ensures InStep(cfg, ds, Settle(cfg, ds, st))
  {
    hide Settle, ShownFrames, AllWithin, AllDisjoint, LaterDistinct, Plans, Distinct, NonNegative, CandidateCount;
    var shown := ShownFrames(cfg, ds, st.plan, st.seen);
    Entering(cfg, ds, st);
    if st.round > 0 {
      ShownVerbatim(cfg, ds, st.plan, st.seen);
    }
    DisjointGrows(st.rounds, st.seen, shown);
    LaterDistinctGrows(st.rounds, shown);
    PlansShownGrows(st.rounds, Plans(st.log), shown);
  }

  lemma InStepSettle(cfg: Config, ds: Adapter, st: State)
    requires InStep(cfg, ds, st)
    ensures InStep(cfg, ds, Settle(cfg, ds, st))
  {
    if st.phase.Between? && st.round < cfg.maxRounds {
      hide InStep, Settle;
      InStepEnters(cfg, ds, st);
    } else {
      hide EnterRound, AllWithin, AllDisjoint, LaterDistinct, Plans;
    }
  }

  lemma InStepStep(cfg: Config, ds: Adapter, st: State, out: Option<RawOutput>)
    requires cfg.strict && st.phase.Running? && st.round > 0 && InStep(cfg, ds, st)
    ensures InStep(cfg, ds, Step(cfg, ds, st, out))
  {
    hide Attempt, Settle, ShownFrames, AllWithin, AllDisjoint, Plans;
    if out.Some? {
      InStepAttempt(cfg, ds, st, out.value);
      InStepSettle(cfg, ds, Attempt(cfg, ds, st, out.value));
    }
  }

  /** Entering round r of a strict run means r - 1 accepted selects, every one of them shown verbatim in the round
  after it, with the frames of different rounds disjoint, none repeated after the first round, and the fallback frame
  left unused after it. */
  lemma {:induction false} StrictRun(cfg: Config, ds: Adapter, outs: seq<Option<RawOutput>>)
    requires cfg.strict
    ensures InStep(cfg, ds, Run(cfg, ds, outs))
  {
    hide Step, InStep;
    if outs == [] {
      InStepStart(cfg, ds);
    } else {
      var st := Run(cfg, ds, outs[..|outs| - 1]);
      StrictRun(cfg, ds, outs[..|outs| - 1]);
      RunPaced(cfg, ds, outs[..|outs| - 1]);
      if st.phase.Running? {
        InStepStep(cfg, ds, st, outs[|outs| - 1]);
      }
    }
  }

  lemma InStepStart(cfg: Config, ds: Adapter)
    ensures InStep(cfg, ds, Settle(cfg, ds, Initial(ds)))
  {
    hide Settle;
    InStepSettle(cfg, ds, Initial(ds));
  }

  // ---------------------------------------------------------------- how many rounds there can be

  ghost predicate Fresher(cfg: Config, st: State) {
    cfg.maxFrames >= 1 ==> |st.seen| >= st.round
  }

  lemma {:induction false} DistinctUnion(seen: seq<int>, shown: seq<int>)
    requires shown != [] && exists x :: x in shown && x !in seen
    ensures |AppendNew(seen, shown)| > |seen|
  {
    var all := AppendNew(seen, shown);
    assert |all| == |seen| ==> all == seen;
  }

  lemma FresherSettle(cfg: Config, ds: Adapter, st: State)
    requires HooksInRange(ds) && InStep(cfg, ds, st) && Fresher(cfg, st)
    ensures Fresher(cfg, Settle(cfg, ds, st))
  {
    hide AllWithin, AllDisjoint, Plans;
    if cfg.maxFrames >= 1 && st.phase.Between? && st.round < cfg.maxRounds {
      Entering(cfg, ds, st);
      var shown := ShownFrames(cfg, ds, st.plan, st.seen);
      if st.round > 0 {
        ShownVerbatim(cfg, ds, st.plan, st.seen);
      }
      assert shown[0] in shown;
      DistinctUnion(st.seen, shown);
    }
  }

  lemma {:induction false} SeenEveryRound(cfg: Config, ds: Adapter, outs: seq<Option<RawOutput>>)
    requires cfg.strict && HooksInRange(ds)
    ensures Fresher(cfg, Run(cfg, ds, outs))
  {
    hide Attempt, InStep, Settle, HooksInRange;
    if outs == [] {
      InStepInitial(cfg, ds);
      FresherSettle(cfg, ds, Initial(ds));
    } else {
      var st, out := Run(cfg, ds, outs[..|outs| - 1]), outs[|outs| - 1];
      SeenEveryRound(cfg, ds, outs[..|outs| - 1]);
      StrictRun(cfg, ds, outs[..|outs| - 1]);
      RunPaced(cfg, ds, outs[..|outs| - 1]);
      if st.phase.Running? && out.Some? {
        InStepAttempt(cfg, ds, st, out.value);
        AttemptKeeps(cfg, ds, st, out.value);
        FresherSettle(cfg, ds, Attempt(cfg, ds, st, out.value));
      }
    }
  }

  lemma InStepInitial(cfg: Config, ds: Adapter)
    ensures InStep(cfg, ds, Initial(ds))
  {
  }

  /** A strict run enters at most min(max_rounds, frame_count) rounds, as each shows a frame not shown before. */
  lemma RoundsBounded(cfg: Config, ds: Adapter, outs: seq<Option<RawOutput>>)
    requires cfg.strict && HooksInRange(ds) && cfg.maxRounds >= 1
    ensures Run(cfg, ds, outs).round <= Min(cfg.maxRounds, ds.frameCount)
  {
    hide Run, InStep, RoundsSeen;
    var st := Run(cfg, ds, outs);
    RunPaced(cfg, ds, outs);
    assert ds.fallbackFrames[0] in ds.fallbackFrames;
    assert 0 <= ds.fallbackFrames[0] < ds.frameCount;
    if cfg.maxFrames >= 1 {
      SeenInRange(cfg, ds, outs);
      SeenEveryRound(cfg, ds, outs);
      PigeonHole(st.seen, 0, ds.frameCount);
    } else {
      NoBudgetNoSelect(cfg, ds, outs);
    }
  }

  /** Without a frame budget no select is ever accepted, and a strict run does not get past its first round. */
  lemma {:induction false} NoBudgetNoSelect(cfg: Config, ds: Adapter, outs: seq<Option<RawOutput>>)
    requires cfg.strict && cfg.maxFrames < 1 && cfg.maxRounds >= 1
    ensures Run(cfg, ds, outs).round == 1 && !Run(cfg, ds, outs).phase.Between?
  {
    hide Decide, ShownFrames;
    if outs != [] {
      var st, out := Run(cfg, ds, outs[..|outs| - 1]), outs[|outs| - 1];
      NoBudgetNoSelect(cfg, ds, outs[..|outs| - 1]);
      if st.phase.Running? && out.Some? && Decide(ds.judge, TurnOf(cfg, ds, st), out.value).SelectDecision? {
        AcceptedSelect(ds.judge, TurnOf(cfg, ds, st), out.value);
      }
    }
  }

  // ---------------------------------------------------------------- how a run ends

  /** With the answer forced in the last round, a frame request made there is refused. */
  lemma NoSelectInLastRound(cfg: Config, ds: Adapter, st: State, raw: RawOutput)
    requires cfg.forceFinalAnswer && st.phase.Running? && st.round >= cfg.maxRounds
    ensures !Attempt(cfg, ds, st, raw).phase.Between? || !cfg.strict
  {
    var t := TurnOf(cfg, ds, st);
    hide Decide;
    if Decide(ds.judge, t, raw).SelectDecision? {
      AcceptedSelect(ds.judge, t, raw);
    }
  }

  lemma {:induction false} NeverExhausted(cfg: Config, ds: Adapter, outs: seq<Option<RawOutput>>)
    requires cfg.strict && cfg.forceFinalAnswer
    ensures !Run(cfg, ds, outs).phase.Exhausted?
  {
    hide Attempt;
    if outs != [] {
      var st, out := Run(cfg, ds, outs[..|outs| - 1]), outs[|outs| - 1];
      NeverExhausted(cfg, ds, outs[..|outs| - 1]);
      RunPaced(cfg, ds, outs[..|outs| - 1]);
      if st.phase.Running? && out.Some? {
        PacedAttempt(cfg, ds, st, out.value);
        AttemptKeeps(cfg, ds, st, out.value);
        if st.round >= cfg.maxRounds {
          NoSelectInLastRound(cfg, ds, st, out.value);
        }
      }
    }
  }

  /** A run breaks off only where the model or the frame reader did, or when there is no round to play. */
  lemma {:induction false} RaisedMeansMissing(cfg: Config, ds: Adapter, outs: seq<Option<RawOutput>>)
    requires cfg.maxRounds >= 1 && forall i :: 0 <= i < |outs| ==> outs[i].Some?
    ensures !Run(cfg, ds, outs).phase.Raised?
  {
    hide Attempt;
    if outs != [] {
      var shorter := outs[..|outs| - 1];
      var st, out := Run(cfg, ds, shorter), outs[|outs| - 1];
      assert forall i :: 0 <= i < |shorter| ==> shorter[i] == outs[i];
      RaisedMeansMissing(cfg, ds, shorter);
      RunPaced(cfg, ds, shorter);
      if st.phase.Running? {
        PacedAttempt(cfg, ds, st, out.value);
        AttemptKeeps(cfg, ds, st, out.value);
      }
    }
  }

  /** A strict run that forces the final answer ends, if the model keeps answering calls, with an accepted answer or
  with an invalid-action termination, and every select it accepted has been shown. */
  lemma DecidedOutcome(cfg: Config, ds: Adapter, script: nat -> Option<RawOutput>)
    requires cfg.strict && cfg.forceFinalAnswer && cfg.maxRounds >= 1
    requires forall i :: script(i).Some?
    ensures var st := Final(cfg, ds, script);
            && (st.phase.Answered? || st.phase.Terminated?)
            && |st.rounds| == |Plans(st.log)| + 1
            && forall i :: 0 <= i < |Plans(st.log)| ==> st.rounds[i + 1] == Plans(st.log)[i]
  {
    hide Run, Budget, Plans, ShownFrames, AllWithin, AllDisjoint;
    var outs := Script(script, Budget(cfg));
    RunEnds(cfg, ds, outs);
    RunPaced(cfg, ds, outs);
    NeverExhausted(cfg, ds, outs);
    RaisedMeansMissing(cfg, ds, outs);
    StrictRun(cfg, ds, outs);
  }

  /** In the last round of a strict run no answer is refused for coming too early, whatever min_select_rounds asks for:
  the rounds before it were all selects, and the demand is capped to as many. */
  lemma LastAnswerNotEarly(cfg: Config, ds: Adapter, outs: seq<Option<RawOutput>>, raw: RawOutput)
    requires cfg.strict
    requires Run(cfg, ds, outs).phase.Running? && Run(cfg, ds, outs).round == cfg.maxRounds
    ensures Decide(ds.judge, TurnOf(cfg, ds, Run(cfg, ds, outs)), raw) != InvalidDecision(EarlyAnswerDisallowed)
  {
    hide Run, Plans, ShownFrames, AllWithin, AllDisjoint;
    StrictRun(cfg, ds, outs);
    var t := TurnOf(cfg, ds, Run(cfg, ds, outs));
    assert t.selectRoundsSoFar >= t.minSelectRounds;
    NotEarly(ds.judge, t, raw);
  }

  lemma NotEarly(j: Judge, t: Turn, raw: RawOutput)
    requires t.selectRoundsSoFar >= t.minSelectRounds && t.maxRounds == Some(t.round)
    ensures Decide(j, t, raw) != InvalidDecision(EarlyAnswerDisallowed)
  {
    hide ParseStrictAction, JudgeFrames, IsStrictAnswerBody;
    match ParseStrictAction(raw)
    case Some(SelectAction(_, summary, body)) =>
      var req := Requested(t, Dedupe(ParseIntList(body)));
      if req.Err? {
        RequestedReasons(t, Dedupe(ParseIntList(body)));
      } else {
        JudgedReasonsNotEarly(t, summary, req.value);
      }
    case _ =>
  }

  lemma JudgedReasonsNotEarly(t: Turn, summary: string, frames: seq<int>)
    ensures JudgeFrames(t, summary, frames) != InvalidDecision(EarlyAnswerDisallowed)
  {
  }

  // ---------------------------------------------------------------- no run gets stuck

  /** Candidates are unseen frames, and there are some while any frame of the video is unseen. */
  ghost predicate CandidatesServe(cfg: Config, ds: Adapter) {
    forall round: nat, seen :: AllIn(seen, 0, ds.frameCount) && Distinct(seen) ==>
      var c := ds.candidates(round, CandidateCount(cfg), seen);
      Disjoint(c, seen) && (|seen| < ds.frameCount ==> c != [])
  }

  /** The dataset can be satisfied: some summary passes it, plain numbers are no range, and a bare label is an answer.
  */
  ghost predicate JudgeServes(ds: Adapter, summary: string) {
    && (forall n: nat :: ds.judge.summaryValid(Strip(summary), n) && !ds.judge.summaryStale(Strip(summary), n))
    && (forall b :: IsStrictSelectBody(b) ==> !ds.judge.rangeSyntax(b))
    && (forall c :: c in Labels(ds.numChoices) ==> ds.judge.normalize([c]) == Some(c))
  }

  ghost predicate CandidatesKept(cfg: Config, ds: Adapter, st: State) {
    st.phase.Running? ==>
      st.candidates == if cfg.useCandidates then ds.candidates(st.round, CandidateCount(cfg), st.seen) else []
  }

  lemma CandidatesSettle(cfg: Config, ds: Adapter, st: State)
    requires CandidatesKept(cfg, ds, st)
    ensures CandidatesKept(cfg, ds, Settle(cfg, ds, st))
  {
    hide ShownFrames, CandidateCount;
  }

  lemma {:induction false} RunCandidates(cfg: Config, ds: Adapter, outs: seq<Option<RawOutput>>)
    ensures CandidatesKept(cfg, ds, Run(cfg, ds, outs))
  {
    hide Attempt, Settle, ShownFrames, CandidateCount;
    if outs == [] {
      CandidatesSettle(cfg, ds, Initial(ds));
    } else {
      var st, out := Run(cfg, ds, outs[..|outs| - 1]), outs[|outs| - 1];
      RunCandidates(cfg, ds, outs[..|outs| - 1]);
      if st.phase.Running? && out.Some? {
        AttemptKeeps(cfg, ds, st, out.value);
        CandidatesSettle(cfg, ds, Attempt(cfg, ds, st, out.value));
      }
    }
  }

  /** With more frames than all rounds but the last can show, a strict run is never stuck: before the last round some
  frame request is accepted, by candidate ID where IDs are in use, and in the last round some answer is. */
  lemma NeverStuck(cfg: Config, ds: Adapter, outs: seq<Option<RawOutput>>, summary: string)
    requires cfg.strict && cfg.maxFrames >= 1 && ds.frameCount > (cfg.maxRounds - 1) * cfg.maxFrames
    requires HooksInRange(ds) && CandidatesServe(cfg, ds) && JudgeServes(ds, summary)
    requires Run(cfg, ds, outs).phase.Running?
    ensures var st := Run(cfg, ds, outs);
            exists raw :: var d := Decide(ds.judge, TurnOf(cfg, ds, st), raw);
              if st.round < cfg.maxRounds then d.SelectDecision? else d.AnswerDecision?
  {
    hide Run, Decide, HooksInRange, CandidatesServe, JudgeServes, RoundsSeen, Distinct;
    var st := Run(cfg, ds, outs);
    RunPaced(cfg, ds, outs);
    SeenInRange(cfg, ds, outs);
    if st.round < cfg.maxRounds {
      MulMono(st.round, cfg.maxRounds - 1, cfg.maxFrames);
      CandidatesNew(cfg, ds, outs);
      SelectExists(cfg, ds, st, summary);
    } else {
      StrictEffective(cfg, ds, outs);
      AnswerExists(cfg, ds, st, summary);
    }
  }

  lemma StrictEffective(cfg: Config, ds: Adapter, outs: seq<Option<RawOutput>>)
    requires cfg.strict && Run(cfg, ds, outs).phase.Running?
    ensures Run(cfg, ds, outs).effective == Run(cfg, ds, outs).round - 1
  {
    hide Run, Plans, ShownFrames, AllWithin, AllDisjoint;
    StrictRun(cfg, ds, outs);
    RunPaced(cfg, ds, outs);
  }

  /** Some request is accepted exactly if the turn may be a select and there is a frame left to ask for. */
  lemma SelectExists(cfg: Config, ds: Adapter, st: State, summary: string)
    requires JudgeServes(ds, summary) && Distinct(st.seen) && AllIn(st.seen, 0, ds.frameCount)
    requires AllIn(st.candidates, 0, ds.frameCount) && Disjoint(st.candidates, st.seen)
    ensures (exists raw :: Decide(ds.judge, TurnOf(cfg, ds, st), raw).SelectDecision?) <==>
            !MustAnswer(cfg, st.round) && cfg.maxFrames >= 1 && |st.seen| < ds.frameCount
  {
    hide Decide, MustAnswer, Distinct;
    var t := TurnOf(cfg, ds, st);
    forall raw | Decide(ds.judge, t, raw).SelectDecision?
      ensures !t.requireAnswer && cfg.maxFrames >= 1 && |st.seen| < ds.frameCount
    {
      AcceptedSelect(ds.judge, t, raw);
      RoomFor(st.seen, Decide(ds.judge, t, raw).frames, ds.frameCount);
    }
    if !t.requireAnswer && cfg.maxFrames >= 1 && |st.seen| < ds.frameCount {
      var plan := FreshFrame(t);
      GoodPlanAccepted(ds.judge, t, summary, plan);
      assert Decide(ds.judge, t, AskFor(t, summary, plan)).SelectDecision?;
    }
  }

  /** A new frame means that not all have been seen. */
  lemma RoomFor(seen: seq<int>, frames: seq<int>, frameCount: int)
    requires Distinct(seen) && AllIn(seen, 0, frameCount)
    requires frames != [] && AllIn(frames, 0, frameCount) && forall x :: x in frames ==> x !in seen
    ensures |seen| < frameCount
  {
    assert frames[0] in frames && 0 <= frames[0] < frameCount;
    var all := seen + [frames[0]];
    assert Distinct(all);
    PigeonHole(all, 0, frameCount);
  }

  /** An answer is early. */
  predicate Early(cfg: Config, st: State) {
    st.effective < MinSelects(cfg) || (cfg.answerOnlyFinalRound && st.round < cfg.maxRounds)
  }

  lemma AnswerExists(cfg: Config, ds: Adapter, st: State, summary: string)
    requires JudgeServes(ds, summary)
    ensures (exists raw :: Decide(ds.judge, TurnOf(cfg, ds, st), raw).AnswerDecision?) <==> !Early(cfg, st)
  {
    hide Decide, Labels, MinSelects;
    var t := TurnOf(cfg, ds, st);
    forall raw | Decide(ds.judge, t, raw).AnswerDecision? ensures !Early(cfg, st) {
      AnsweredInTime(ds.judge, t, raw);
    }
    SomeLabel(ds.numChoices);
    AnswerAccepted(ds.judge, t, "", 'A');
    if !Early(cfg, st) {
      assert Decide(ds.judge, t, RenderAction(AnswerAction("", ['A']))).AnswerDecision?;
    }
  }

  lemma SomeLabel(numChoices: int)
    ensures 'A' in Labels(numChoices)
  {
    assert OPTION_LABELS[0] == 'A';
  }

  lemma AnsweredInTime(j: Judge, t: Turn, raw: RawOutput)
    requires Decide(j, t, raw).AnswerDecision?
    ensures t.selectRoundsSoFar >= t.minSelectRounds
    ensures !(t.answerOnlyFinalRound && t.maxRounds.Some? && t.round < t.maxRounds.value)
  {
    hide ParseStrictAction, IsStrictAnswerBody, IsStrictSelectBody, ParseIntList, Requested, Labels;
  }

  /** No output is accepted. */
  ghost predicate NoWayOn(cfg: Config, ds: Adapter, st: State) {
    st.phase.Running? && forall raw :: Decide(ds.judge, TurnOf(cfg, ds, st), raw).InvalidDecision?
  }

  /** The last round in which an answer is early in a strict run, 0 if there is none. */
  function LastEarly(cfg: Config): nat {
    if cfg.answerOnlyFinalRound then Max(0, cfg.maxRounds - 1) else MinSelects(cfg)
  }

  /** Exactly when a reachable state of a strict run accepts nothing any more: answers are still early, and there is no
  frame left to ask for or no budget to ask with. */
  lemma NoWayOnExactly(cfg: Config, ds: Adapter, outs: seq<Option<RawOutput>>, summary: string)
    requires cfg.strict && HooksInRange(ds) && CandidatesServe(cfg, ds) && JudgeServes(ds, summary)
    requires Run(cfg, ds, outs).phase.Running?
    ensures var st := Run(cfg, ds, outs);
            NoWayOn(cfg, ds, st) <==>
            st.round <= LastEarly(cfg) && (cfg.maxFrames < 1 || |st.seen| == ds.frameCount)
  {
    hide Run, Decide, HooksInRange, CandidatesServe, JudgeServes, RoundsSeen, Distinct;
    var st := Run(cfg, ds, outs);
    RunPaced(cfg, ds, outs);
    StrictEffective(cfg, ds, outs);
    AnswerExists(cfg, ds, st, summary);
    EarlyRounds(cfg, st);
    if cfg.maxFrames < 1 {
      NoBudget(cfg, ds, st);
    } else {
      SeenInRange(cfg, ds, outs);
      CandidatesNew(cfg, ds, outs);
      SelectExists(cfg, ds, st, summary);
      SomeFrame(ds);
      PigeonHole(st.seen, 0, ds.frameCount);
    }
    EitherWay(cfg, ds, st);
  }

  lemma SomeFrame(ds: Adapter)
    requires HooksInRange(ds)
    ensures ds.frameCount >= 1
  {
    assert ds.fallbackFrames[0] in ds.fallbackFrames;
    assert 0 <= ds.fallbackFrames[0] < ds.frameCount;
  }

  lemma EarlyRounds(cfg: Config, st: State)
    requires 1 <= st.round <= cfg.maxRounds && st.effective == st.round - 1
    ensures Early(cfg, st) <==> st.round <= LastEarly(cfg)
    ensures st.round <= LastEarly(cfg) ==> !MustAnswer(cfg, st.round)
  {
  }

  lemma NoBudget(cfg: Config, ds: Adapter, st: State)
    requires cfg.maxFrames < 1
    ensures !exists raw :: Decide(ds.judge, TurnOf(cfg, ds, st), raw).SelectDecision?
  {
    hide Decide;
    forall raw ensures !Decide(ds.judge, TurnOf(cfg, ds, st), raw).SelectDecision? {
      if Decide(ds.judge, TurnOf(cfg, ds, st), raw).SelectDecision? {
        AcceptedSelect(ds.judge, TurnOf(cfg, ds, st), raw);
      }
    }
  }

  lemma EitherWay(cfg: Config, ds: Adapter, st: State)
    requires st.phase.Running?
    ensures NoWayOn(cfg, ds, st) <==>
            !(exists raw :: Decide(ds.judge, TurnOf(cfg, ds, st), raw).SelectDecision?)
            && !(exists raw :: Decide(ds.judge, TurnOf(cfg, ds, st), raw).AnswerDecision?)
  {
    hide Decide, TurnOf;
  }

  lemma CandidatesNew(cfg: Config, ds: Adapter, outs: seq<Option<RawOutput>>)
    requires HooksInRange(ds) && CandidatesServe(cfg, ds) && cfg.maxFrames >= 0 && Run(cfg, ds, outs).phase.Running?
    ensures var st := Run(cfg, ds, outs);
            Disjoint(st.candidates, st.seen)
            && (cfg.useCandidates && |st.seen| < ds.frameCount ==> st.candidates != [])
  {
    hide Run, HooksInRange, RoundsSeen, CandidateCount, Distinct;
    SeenInRange(cfg, ds, outs);
    RunCandidates(cfg, ds, outs);
  }

  /** A one-frame plan that the turn must accept. */
  lemma FreshFrame(t: Turn) returns (plan: seq<nat>)
    requires |t.seen| < t.frameCount && t.maxFrames >= 1
    requires AllIn(t.candidates, 0, t.frameCount) && Disjoint(t.candidates, t.seen)
    ensures GoodPlan(t, plan)
  {
    if t.candidates != [] {
      assert t.candidates[0] in t.candidates;
      plan := [t.candidates[0]];
    } else {
      var f := SomeUnseen(t.seen, 0, t.frameCount);
      plan := [f];
    }
  }

  // ---------------------------------------------------------------- how many frames a run can show

  /** Requests are held to the candidates, by ID or outright. */
  predicate InForce(cfg: Config) { cfg.useCandidates && (cfg.useIds || cfg.requireCandidates) }

  /** The most new frames that a round after the first can show on request. */
  function PerRound(cfg: Config): int {
    if InForce(cfg) then Min(cfg.maxFrames, CandidateCount(cfg)) else cfg.maxFrames
  }

  /** The most frames that so many rounds can show. */
  function Reach(cfg: Config, rounds: nat): int {
    if rounds == 0 then 0 else cfg.maxFrames + (rounds - 1) * PerRound(cfg)
  }

  lemma ReachNext(cfg: Config, rounds: nat)
    ensures Reach(cfg, rounds + 1) == Reach(cfg, rounds) + if rounds == 0 then cfg.maxFrames else PerRound(cfg)
  {
    MulNext(rounds - 1, PerRound(cfg));
  }

  /** If something is missing, there is a round left to get it. */
  lemma RoundsLeft(rounds: int, perRound: int, missing: int)
    requires 0 < missing <= rounds * perRound && perRound >= 1
    ensures rounds >= 1
  {
    if rounds <= 0 {
      MulMono(rounds, 0, perRound);
    }
  }

  lemma ReachGrows(cfg: Config, a: nat, b: nat)
    requires a <= b && cfg.maxFrames >= 0 && PerRound(cfg) >= 0
    ensures Reach(cfg, a) <= Reach(cfg, b)
  {
    if b > 0 {
      MulMono(0, b - 1, PerRound(cfg));
      if a > 0 {
        MulMono(a - 1, b - 1, PerRound(cfg));
      }
    }
  }

  lemma ElemsSmall(s: seq<int>)
    ensures |Elems(s)| <= |s|
  {
    var d := Dedupe(s);
    DistinctCard(d);
    assert Elems(d) == Elems(s);
  }

  lemma PlanFromCandidates(plan: seq<int>, candidates: seq<int>)
    requires Distinct(plan) && forall x :: x in plan ==> x in candidates
    ensures |plan| <= |candidates|
  {
    DistinctCard(plan);
    SubsetCard(Elems(plan), Elems(candidates));
    ElemsSmall(candidates);
  }

  lemma SettleCountsSeen(cfg: Config, ds: Adapter, st: State)
    requires !(st.phase.Between? && st.round < cfg.maxRounds)
    ensures var next := Settle(cfg, ds, st);
            next.seen == st.seen && next.round == st.round && !next.phase.Between?
            && (next.phase.Running? ==> next == st)
  {
  }

  /** A plan of new frames is shown as it is. */
  lemma PlanShown(cfg: Config, ds: Adapter, st: State)
    requires st.phase.Between? && st.round < cfg.maxRounds
    requires Showable(st.plan, st.seen, cfg.maxFrames)
    ensures var next := Settle(cfg, ds, st);
            next.phase.Running? && next.round == st.round + 1 && next.seen == st.seen + st.plan
            && next.candidates == (if cfg.useCandidates
                                   then ds.candidates(next.round, CandidateCount(cfg), next.seen) else [])
            && next.rounds == st.rounds + [st.plan]
  {
    hide Settle, ShownFrames, CandidateCount;
    Entering(cfg, ds, st);
    ShownVerbatim(cfg, ds, st.plan, st.seen);
    AppendNewDisjoint(st.seen, st.plan);
  }

  /** An accepted request for new frames: they are what the next round shows. */
  lemma AskedShown(cfg: Config, ds: Adapter, st: State, summary: string, plan: seq<nat>) returns (raw: RawOutput)
    requires st.phase.Running? && 0 < st.round < cfg.maxRounds && GoodPlan(TurnOf(cfg, ds, st), plan)
    requires JudgeServes(ds, summary)
    ensures var next := Step(cfg, ds, st, Some(raw));
            next.phase.Running? && next.round == st.round + 1 && next.seen == st.seen + plan
            && next.candidates == (if cfg.useCandidates
                                   then ds.candidates(next.round, CandidateCount(cfg), next.seen) else [])
            && next.rounds == st.rounds + [plan]
  {
    hide Decide, Settle, CandidateCount;
    GoodPlanAccepted(ds.judge, TurnOf(cfg, ds, st), summary, plan);
    raw := AskFor(TurnOf(cfg, ds, st), summary, plan);
    var after := Attempt(cfg, ds, st, raw);
    AttemptKeeps(cfg, ds, st, raw);
    assert after.phase.Between? && after.plan == Take(plan, cfg.maxFrames) == plan;
    PlanShown(cfg, ds, after);
  }

  lemma AsNats(s: seq<int>, lo: nat) returns (r: seq<nat>)
    requires forall x :: x in s ==> lo <= x
    ensures r == s
  {
    forall i | 0 <= i < |s| ensures s[i] >= 0 {
      var x := s[i];
      assert x in s;
    }
    r := seq(|s|, i requires 0 <= i < |s| => s[i]);
  }
}
