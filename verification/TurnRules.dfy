/** What one output does to a run, case by case, and what the log of a run records of each round. */
module TurnRules {
  import opened Py
  import opened Protocol
  import opened Policy
  import opened Engine
  import opened RunFacts

  /** After `outs` the run waits for an output, and `raw` is judged to be `d`. */
  ghost predicate Judged(cfg: Config, ds: Adapter, outs: seq<Option<RawOutput>>, raw: RawOutput, d: Decision) {
    var st := Run(cfg, ds, outs);
    st.phase.Running? && Decide(ds.judge, TurnOf(cfg, ds, st), raw) == d
  }

  /** The model is asked again about the same turn. */
  ghost predicate AskedAgain(st: State, next: State) {
    && next.phase.Running? && next.retry == st.retry + 1
    && next.round == st.round && next.rounds == st.rounds && next.seen == st.seen && next.shown == st.shown
    && next.candidates == st.candidates && next.plan == st.plan
  }

  /** The frames proposed in a round: as many as configured, else four for every frame of the budget, and twelve at
  least. */
  ghost predicate Proposed(cfg: Config, ds: Adapter, st: State) {
    st.candidates ==
    if !cfg.useCandidates then []
    else ds.candidates(st.round, if cfg.candidateK.Some? then cfg.candidateK.value
                                 else if cfg.maxFrames <= 3 then 12 else 4 * cfg.maxFrames, st.seen)
  }

  /** The round is over with `plan` to be shown: its unseen frames, or the fallback frames if it has none, are shown in
  the next round, and become seen. After the last round nothing more is shown. */
  ghost predicate MovedOn(cfg: Config, ds: Adapter, st: State, next: State, plan: seq<int>) {
    && next.plan == plan
    && if st.round >= cfg.maxRounds
       then next.phase.Exhausted? && next.round == st.round && next.rounds == st.rounds && next.seen == st.seen
       else
         var unseen := Without(plan, st.seen);
         && next.phase.Running? && next.retry == 0 && next.round == st.round + 1
         && next.shown == Take(if unseen == [] then ds.fallbackFrames else unseen, cfg.maxFrames)
         && next.rounds == st.rounds + [next.shown] && next.seen == AppendNew(st.seen, next.shown)
         && Proposed(cfg, ds, next)
  }

  lemma SettleMoves(cfg: Config, ds: Adapter, st: State)
    requires st.round > 0
    ensures var next := Settle(cfg, ds, st);
            if st.phase.Between?
            then
              && MovedOn(cfg, ds, st, next, st.plan)
              && next.calls == st.calls && next.invalid == st.invalid && next.retries == st.retries
              && next.fallbacks == st.fallbacks && next.lastReason == st.lastReason
              && next.summary == st.summary && next.effective == st.effective
            else next == st
  {
    hide Without, AppendNew;
  }

  /** The first round shows the initial frames, and nothing has been counted or logged. Without any round the run breaks
  off at once. */
  lemma FirstTurn(cfg: Config, ds: Adapter)
    ensures var st := Run(cfg, ds, []);
            && st.calls == st.invalid == st.retries == st.fallbacks == st.effective == 0
            && st.lastReason == None && st.log == [] && st.summary == ds.initialSummary
            && if cfg.maxRounds < 1 then st.phase.Raised? && st.round == 0 && st.seen == []
               else
                 var plan := NonNegative(ds.initialFrames);
                 && st.phase.Running? && st.round == 1 && st.retry == 0 && st.rounds == [st.shown]
                 && st.shown == Take(if plan == [] then ds.fallbackFrames else plan, cfg.maxFrames)
                 && st.seen == AppendNew([], st.shown) && Proposed(cfg, ds, st)
  {
    hide AppendNew, NonNegative, ShownFrames, Settle, Run, Paced, CandidateCount;
    RunStart(cfg, ds);
    if cfg.maxRounds >= 1 {
      Entering(cfg, ds, Initial(ds));
      ShownFirst(cfg, ds, NonNegative(ds.initialFrames));
      CountIs(cfg);
    }
  }

  lemma ShownFirst(cfg: Config, ds: Adapter, plan: seq<int>)
    ensures ShownFrames(cfg, ds, plan, []) == Take(if plan == [] then ds.fallbackFrames else plan, cfg.maxFrames)
  {
    WithoutNone(plan, []);
  }

  lemma CountIs(cfg: Config)
    ensures CandidateCount(cfg) == if cfg.candidateK.Some? then cfg.candidateK.value
                                   else if cfg.maxFrames <= 3 then 12 else 4 * cfg.maxFrames
  {
  }

  /** The counters and the state carried along after an invalid output. */
  ghost predicate CountedInvalid(st: State, next: State, retries: nat, fallbacks: nat) {
    && next.calls == st.calls + 1 && next.invalid == st.invalid + 1
    && next.retries == st.retries + retries && next.fallbacks == st.fallbacks + fallbacks
    && next.summary == st.summary && next.effective == st.effective
  }

  /** An invalid output, in every run: it is retried while retries are left and its reason allows it. Otherwise a strict
  run ends with the reason, and a lenient one goes on with a cleared plan or with frames of its own choice: candidates,
  else unseen frames at random, else the fallback frames. */
  lemma InvalidTurn(cfg: Config, ds: Adapter, outs: seq<Option<RawOutput>>, raw: RawOutput, reason: Reason)
    requires Judged(cfg, ds, outs, raw, InvalidDecision(reason))
    ensures var (st, next) := (Run(cfg, ds, outs), Run(cfg, ds, outs + [Some(raw)]));
            var charged := One(ds.countExhausted(reason));
            next.lastReason == Some(reason) &&
            if ds.retryable(reason) && st.retry < cfg.maxRetries
            then AskedAgain(st, next) && CountedInvalid(st, next, 1, 0)
            else if cfg.strict
            then next.phase == Terminated(reason) && next.seen == st.seen && CountedInvalid(st, next, charged, 0)
            else if ds.clearsPlan(reason)
            then MovedOn(cfg, ds, st, next, []) && CountedInvalid(st, next, charged, 0)
            else
              var wanted := if st.candidates != [] then Take(st.candidates, cfg.maxFrames)
                            else ds.sampleUnseen(st.round, st.seen);
              MovedOn(cfg, ds, st, next, if wanted == [] then ds.fallbackFrames else Take(wanted, cfg.maxFrames))
              && CountedInvalid(st, next, charged, 1)
  {
    hide Decide, Run, Without, AppendNew, Settle;
    RunNext(cfg, ds, outs, Some(raw));
    RunPaced(cfg, ds, outs);
    SettleMoves(cfg, ds, Attempt(cfg, ds, Run(cfg, ds, outs), raw));
  }

  /** An accepted output, in every run: an answer ends it, and a select moves on with the frames asked for, cut to the
  budget, and with the new summary if the dataset takes it. */
  lemma AcceptedTurn(cfg: Config, ds: Adapter, outs: seq<Option<RawOutput>>, raw: RawOutput, d: Decision)
    requires Judged(cfg, ds, outs, raw, d) && !d.InvalidDecision?
    ensures var (st, next) := (Run(cfg, ds, outs), Run(cfg, ds, outs + [Some(raw)]));
            && next.calls == st.calls + 1 && next.invalid == st.invalid && next.retries == st.retries
            && next.fallbacks == st.fallbacks && next.lastReason == st.lastReason
            && match d
               case AnswerDecision(letter) =>
                 next.phase == Answered(letter) && next.round == st.round && next.seen == st.seen
                 && next.shown == st.shown && next.summary == st.summary && next.effective == st.effective
               case SelectDecision(summary, frames) =>
                 MovedOn(cfg, ds, st, next, Take(frames, cfg.maxFrames)) && next.effective == st.effective + 1
                 && next.summary == if ds.commits(summary, |st.seen|) then summary else st.summary
               case _ => true
  {
    hide Decide, Run, Without, AppendNew, Settle;
    RunNext(cfg, ds, outs, Some(raw));
    RunPaced(cfg, ds, outs);
    SettleMoves(cfg, ds, Attempt(cfg, ds, Run(cfg, ds, outs), raw));
  }

  /** At any state an answer is early exactly if the selects asked for have not been made, although a round for another
  one is left, or if answers are kept for the last round and this is not it. */
  lemma EarlyAnswers(cfg: Config, ds: Adapter, st: State, think: string, letter: char)
    requires st.phase.Running? && letter in Labels(ds.numChoices) && ds.judge.normalize([letter]) == Some(letter)
    ensures Decide(ds.judge, TurnOf(cfg, ds, st), RenderAction(AnswerAction(think, [letter]))) ==
            if (st.effective < cfg.minSelectRounds && st.effective < cfg.maxRounds - 1)
               || (cfg.answerOnlyFinalRound && st.round < cfg.maxRounds)
            then InvalidDecision(EarlyAnswerDisallowed) else AnswerDecision(letter)
  {
    hide Decide, RenderAction, Labels;
    AnswerAccepted(ds.judge, TurnOf(cfg, ds, st), think, letter);
  }

  /** At any state an accepted select asks for the frames behind its numbers, which are candidate IDs where the run goes
  by them: new frames of the video, each once and within the budget, candidates where these are required, and never in
  the last round of a run that must end with an answer. */
  lemma AcceptedFrames(cfg: Config, ds: Adapter, st: State, raw: RawOutput, d: Decision)
    requires d.SelectDecision? && Decide(ds.judge, TurnOf(cfg, ds, st), raw) == d
    ensures ParseStrictAction(raw).Some? && ParseStrictAction(raw).value.SelectAction?
    ensures var numbers := Elems(ParseIntList(ParseStrictAction(raw).value.body));
            var byId := cfg.useIds && st.candidates != [];
            && (byId ==> forall x :: x in numbers ==> 1 <= x <= |st.candidates|)
            && (forall f :: f in d.frames <==>
                              exists x :: x in numbers && f == if byId then st.candidates[x - 1] else x)
            && Distinct(d.frames) && 1 <= |d.frames| <= cfg.maxFrames
            && (forall f :: f in d.frames ==> 0 <= f < ds.frameCount && f !in st.seen)
            && (cfg.requireCandidates && st.candidates != [] ==> forall f :: f in d.frames ==> f in st.candidates)
            && !(cfg.forceFinalAnswer && st.round >= cfg.maxRounds)
  {
    hide ParseStrictAction, ParseIntList, Decide, Distinct;
    var t := TurnOf(cfg, ds, st);
    DecisionIs(ds.judge, t, raw);
    AcceptedSelect(ds.judge, t, raw);
    var numbers := Elems(ParseIntList(ParseStrictAction(raw).value.body));
    forall f ensures f in d.frames <==> exists x :: x in numbers && Meant(t, x) == f {
      assert f in d.frames <==> f in FramesOf(t, numbers);
    }
  }

  // ---------------------------------------------------------------- the log of a round

  /** The lines of one round. */
  function OfRound(log: seq<LogEntry>, round: nat): seq<LogEntry> {
    if log == [] then []
    else
      var e := log[|log| - 1];
      OfRound(log[..|log| - 1], round) + if e.round == round then [e] else []
  }

  /** Outputs that had to be followed by another one of the same round. */
  ghost predicate AllRetried(cfg: Config, ds: Adapter, es: seq<LogEntry>) {
    forall i :: 0 <= i < |es| ==>
      es[i].retry == i < cfg.maxRetries && es[i].decision.InvalidDecision? && ds.retryable(es[i].decision.reason)
  }

  /** Outputs of a finished round: all but the last were retried, and the last was accepted or could not be. */
  ghost predicate Closed(cfg: Config, ds: Adapter, es: seq<LogEntry>) {
    && es != [] && AllRetried(cfg, ds, es[..|es| - 1])
    && var last := es[|es| - 1];
       && last.retry == |es| - 1 && last.retry <= Max(0, cfg.maxRetries)
       && (last.decision.InvalidDecision? ==> ds.retryable(last.decision.reason) ==> last.retry >= cfg.maxRetries)
  }

  /** The lines of every round, the one under way included. */
  ghost predicate Booked(cfg: Config, ds: Adapter, st: State) {
    && (forall round :: 1 <= round < st.round ==> Closed(cfg, ds, OfRound(st.log, round)))
    && (forall round :: round > st.round || round == 0 ==> OfRound(st.log, round) == [])
    && (st.round > 0 ==>
          var es := OfRound(st.log, st.round);
          if st.phase.Running? then AllRetried(cfg, ds, es) && |es| == st.retry
          else if st.phase.Raised? then AllRetried(cfg, ds, es)
          else
            && Closed(cfg, ds, es)
            && (st.phase.Terminated? ==> es[|es| - 1].decision == InvalidDecision(st.phase.reason)))
  }

  lemma OfRoundNext(log: seq<LogEntry>, e: LogEntry, round: nat)
    ensures OfRound(log + [e], round) == var es := OfRound(log, round); if e.round == round then es + [e] else es
  {
    assert (log + [e])[..|log|] == log;
    assert OfRound(log, round) + [] == OfRound(log, round);
  }

  /** Whether an output has to be followed by another one of its round. */
  ghost predicate MustRetry(cfg: Config, ds: Adapter, e: LogEntry) {
    e.decision.InvalidDecision? && ds.retryable(e.decision.reason) && e.retry < cfg.maxRetries
  }

  lemma AttemptEnds(cfg: Config, ds: Adapter, st: State, raw: RawOutput)
    requires st.phase.Running?
    ensures var (e, next) := (EntryOf(cfg, ds, st, raw), Attempt(cfg, ds, st, raw));
            && next.log == st.log + [e] && (next.phase.Running? <==> MustRetry(cfg, ds, e))
            && (next.phase.Terminated? ==> e.decision == InvalidDecision(next.phase.reason))
  {
    hide Decide, FallbackPlan;
  }

  lemma RoundNext(cfg: Config, ds: Adapter, es: seq<LogEntry>, e: LogEntry)
    requires AllRetried(cfg, ds, es) && e.retry == |es| <= Max(0, cfg.maxRetries)
    ensures if MustRetry(cfg, ds, e) then AllRetried(cfg, ds, es + [e]) else Closed(cfg, ds, es + [e])
  {
    assert (es + [e])[..|es|] == es;
  }

  lemma BookedAttempt(cfg: Config, ds: Adapter, st: State, raw: RawOutput)
    requires st.phase.Running? && Paced(cfg, st) && Booked(cfg, ds, st)
    ensures Booked(cfg, ds, Attempt(cfg, ds, st, raw))
  {
    hide Decide, Attempt, Room, OfRound, AllRetried, Closed;
    var e := EntryOf(cfg, ds, st, raw);
    forall round: nat ensures OfRound(st.log + [e], round) ==
                              var es := OfRound(st.log, round); if e.round == round then es + [e] else es {
      OfRoundNext(st.log, e, round);
    }
    AttemptKeeps(cfg, ds, st, raw);
    PacedAttempt(cfg, ds, st, raw);
    AttemptEnds(cfg, ds, st, raw);
    var es := OfRound(st.log, st.round);
    RoundNext(cfg, ds, es, e);
    assert (es + [e])[|es|] == e;
  }

  lemma BookedSettle(cfg: Config, ds: Adapter, st: State)
    requires Booked(cfg, ds, st)
    ensures Booked(cfg, ds, Settle(cfg, ds, st))
  {
    hide OfRound, ShownFrames, CandidateCount, Closed;
  }

  lemma BookedStep(cfg: Config, ds: Adapter, st: State, out: Option<RawOutput>)
    requires st.phase.Running? && Paced(cfg, st) && Booked(cfg, ds, st)
    ensures Booked(cfg, ds, Step(cfg, ds, st, out))
  {
    hide Attempt, Settle, OfRound, AllRetried, Closed;
    if out.Some? {
      BookedAttempt(cfg, ds, st, out.value);
      BookedSettle(cfg, ds, Attempt(cfg, ds, st, out.value));
    }
  }

  /** In every run, every round that is over was asked about exactly as often as it had to be: again after each invalid
  output whose reason allows it while retries were left, and not after any other output. */
  lemma {:induction false} RunBooked(cfg: Config, ds: Adapter, outs: seq<Option<RawOutput>>)
    ensures Booked(cfg, ds, Run(cfg, ds, outs))
  {
    hide Step;
    if outs != [] {
      var st := Run(cfg, ds, outs[..|outs| - 1]);
      RunBooked(cfg, ds, outs[..|outs| - 1]);
      RunPaced(cfg, ds, outs[..|outs| - 1]);
      if st.phase.Running? {
        BookedStep(cfg, ds, st, outs[|outs| - 1]);
      }
    }
  }

  /** A run is ended for a reason that can be retried only after max_retries_per_round + 1 outputs of the round, each
  invalid for such a reason. */
  lemma EndedAfterRetries(cfg: Config, ds: Adapter, outs: seq<Option<RawOutput>>)
    requires Run(cfg, ds, outs).phase.Terminated? && ds.retryable(Run(cfg, ds, outs).phase.reason)
    ensures var st := Run(cfg, ds, outs);
            var es := OfRound(st.log, st.round);
            && |es| == Max(0, cfg.maxRetries) + 1
            && es[|es| - 1].decision == InvalidDecision(st.phase.reason)
            && forall i :: 0 <= i < |es| ==>
                 es[i].retry == i && es[i].decision.InvalidDecision? && ds.retryable(es[i].decision.reason)
  {
    hide Run, OfRound;
    RunBooked(cfg, ds, outs);
    RunPaced(cfg, ds, outs);
    var st := Run(cfg, ds, outs);
    var es := OfRound(st.log, st.round);
    forall i | 0 <= i < |es| - 1 ensures es[i].retry == i && es[i].decision.InvalidDecision?
                                         && ds.retryable(es[i].decision.reason) && i < cfg.maxRetries {
      assert es[..|es| - 1][i] == es[i];
    }
    if |es| > 1 {
      assert es[|es| - 2].retry == |es| - 2;
    }
  }
}
