/** The multi-round question-answering loop: a state machine that takes one model output a step, and the loop itself.

The model, the random choices and the dataset are arbitrary: an output may be anything, and a missing output stands for
an exception raised while frames were read or the model was called. */
module Engine {
  import opened Py
  import opened Protocol
  import opened Policy

  datatype Config = Config(
    maxRounds: int,
    maxFrames: int,
    maxRetries: int,
    minSelectRounds: int,
    strict: bool,
    forceFinalAnswer: bool,
    useCandidates: bool,
    candidateK: Option<int>,
    useIds: bool,
    requireCandidates: bool,
    answerOnlyFinalRound: bool)

  /** What the loop asks of a dataset about one sample. The random hooks may answer differently in every round. */
  datatype Adapter = Adapter(
    frameCount: int,
    numChoices: int,
    initialFrames: seq<int>,
    fallbackFrames: seq<int>,
    candidates: (nat, int, seq<int>) -> seq<int>,
    sampleUnseen: (nat, seq<int>) -> seq<int>,
    initialSummary: string,
    judge: Judge,
    commits: (string, nat) -> bool,
    retryable: Reason -> bool,
    countExhausted: Reason -> bool,
    clearsPlan: Reason -> bool)

  /** One line of the log: a turn as it was put to the model, its output, and what was decided. */
  datatype LogEntry = LogEntry(
    round: nat,
    retry: nat,
    seen: seq<int>,
    shown: seq<int>,
    candidates: seq<int>,
    summaryIn: string,
    raw: RawOutput,
    decision: Decision)

  datatype Phase = Between | Running | Answered(letter: char) | Terminated(reason: Reason) | Exhausted | Raised

  datatype State = State(
    round: nat,
    retry: nat,
    phase: Phase,
    seen: seq<int>,
    shown: seq<int>,
    candidates: seq<int>,
    plan: seq<int>,
    summary: string,
    effective: nat,
    calls: nat,
    invalid: nat,
    retries: nat,
    fallbacks: nat,
    lastReason: Option<Reason>,
    rounds: seq<seq<int>>,
    log: seq<LogEntry>)

  function CandidateCount(cfg: Config): int {
    if cfg.candidateK.Some? then cfg.candidateK.value else Max(12, cfg.maxFrames * 4)
  }

  function NonNegative(s: seq<int>): (r: seq<int>)
    ensures forall x :: x in r <==> x in s && 0 <= x
    ensures |r| <= |s|
  {
    if s == [] then []
    else if s[0] >= 0 then [s[0]] + NonNegative(s[1..])
    else NonNegative(s[1..])
  }

  function Initial(ds: Adapter): State {
    State(0, 0, Between, [], [], [], NonNegative(ds.initialFrames), ds.initialSummary, 0, 0, 0, 0, 0, None, [], [])
  }

  /** The frames of a round: the unseen part of the plan, or the fallback frame, cut to the budget. */
  function ShownFrames(cfg: Config, ds: Adapter, plan: seq<int>, seen: seq<int>): seq<int> {
    var unseen := Without(plan, seen);
    Take(if unseen == [] then ds.fallbackFrames else unseen, cfg.maxFrames)
  }

  function EnterRound(cfg: Config, ds: Adapter, st: State): State {
    var shown := ShownFrames(cfg, ds, st.plan, st.seen);
    var seen := AppendNew(st.seen, shown);
    st.(round := st.round + 1, retry := 0, phase := Running, shown := shown, seen := seen,
        candidates := if cfg.useCandidates then ds.candidates(st.round + 1, CandidateCount(cfg), seen) else [],
        rounds := st.rounds + [shown])
  }

  /** After a round has ended: the next one, or the end of the run. With no round at all the loop variable is never
  bound, which the source turns into an exception. */
  function Settle(cfg: Config, ds: Adapter, st: State): State {
    if !st.phase.Between? then st
    else if st.round < cfg.maxRounds then EnterRound(cfg, ds, st)
    else st.(phase := if st.round == 0 then Raised else Exhausted)
  }

  function MinSelects(cfg: Config): int { Min(Max(0, cfg.minSelectRounds), Max(0, cfg.maxRounds - 1)) }

  predicate MustAnswer(cfg: Config, round: nat) { cfg.forceFinalAnswer && round >= cfg.maxRounds }

  function TurnOf(cfg: Config, ds: Adapter, st: State): Turn {
    Turn(ds.numChoices, st.seen, ds.frameCount, cfg.maxFrames, st.round, Some(cfg.maxRounds), cfg.answerOnlyFinalRound,
         MustAnswer(cfg, st.round), MinSelects(cfg), st.effective, st.candidates, cfg.useIds, cfg.requireCandidates)
  }

  /** The frames planned after an invalid turn that is not retried in a lenient run. */
  function FallbackPlan(cfg: Config, ds: Adapter, round: nat, seen: seq<int>, candidates: seq<int>): seq<int> {
    var requested := if candidates != [] then Take(candidates, cfg.maxFrames) else ds.sampleUnseen(round, seen);
    if requested != [] then Take(requested, cfg.maxFrames) else ds.fallbackFrames
  }

  function ResolutionOf(cfg: Config, ds: Adapter, retry: nat, reason: Reason): Resolution {
    Resolve(retry, cfg.maxRetries, ds.retryable(reason), cfg.strict, ds.clearsPlan(reason))
  }

  function Reject(cfg: Config, ds: Adapter, st: State, reason: Reason): State {
    var extra := if ds.countExhausted(reason) then 1 else 0;
    match ResolutionOf(cfg, ds, st.retry, reason)
    case Retry =>
      st.(invalid := st.invalid + 1, lastReason := Some(reason), retries := st.retries + 1, retry := st.retry + 1)
    case Terminate =>
      st.(invalid := st.invalid + 1, lastReason := Some(reason), retries := st.retries + extra,
          phase := Terminated(reason))
    case ClearFramePlan =>
      st.(invalid := st.invalid + 1, lastReason := Some(reason), retries := st.retries + extra,
          phase := Between, plan := [])
    case Fallback =>
      st.(invalid := st.invalid + 1, lastReason := Some(reason), retries := st.retries + extra,
          phase := Between, plan := FallbackPlan(cfg, ds, st.round, st.seen, st.candidates),
          fallbacks := st.fallbacks + 1)
  }

  function EntryOf(cfg: Config, ds: Adapter, st: State, raw: RawOutput): LogEntry {
    LogEntry(st.round, st.retry, st.seen, st.shown, st.candidates, st.summary, raw,
             Decide(ds.judge, TurnOf(cfg, ds, st), raw))
  }

  /** One model call and everything up to the end of its round. */
  function Attempt(cfg: Config, ds: Adapter, st: State, raw: RawOutput): State {
    var entry := EntryOf(cfg, ds, st, raw);
    var st := st.(calls := st.calls + 1, log := st.log + [entry]);
    match entry.decision
    case AnswerDecision(letter) => st.(phase := Answered(letter))
    case SelectDecision(summary, frames) =>
      st.(phase := Between, plan := Take(frames, cfg.maxFrames), effective := st.effective + 1,
          summary := if ds.commits(summary, |st.seen|) then summary else st.summary)
    case InvalidDecision(reason) => Reject(cfg, ds, st, reason)
  }

  function Step(cfg: Config, ds: Adapter, st: State, out: Option<RawOutput>): State {
    match out
    case None => st.(phase := Raised)
    case Some(raw) => Settle(cfg, ds, Attempt(cfg, ds, st, raw))
  }

  /** The state after the model has given `outs`; outputs after the end of the run are not asked for. */
  function Run(cfg: Config, ds: Adapter, outs: seq<Option<RawOutput>>): State {
    if outs == [] then Settle(cfg, ds, Initial(ds))
    else
      var st := Run(cfg, ds, outs[..|outs| - 1]);
      if st.phase.Running? then Step(cfg, ds, st, outs[|outs| - 1]) else st
  }

  /** The most model calls a sample can take. */
  function Budget(cfg: Config): nat { Max(0, cfg.maxRounds) * (Max(0, cfg.maxRetries) + 1) }

  /** The first `n` outputs of a model that gives `script(i)` at its call number `i`. */
  function Script(script: nat -> Option<RawOutput>, n: nat): (outs: seq<Option<RawOutput>>)
    ensures |outs| == n && forall i :: 0 <= i < n ==> outs[i] == script(i)
  {
    seq(n, i requires 0 <= i < n => script(i))
  }

  /** The end of the run of one sample. */
  function Final(cfg: Config, ds: Adapter, script: nat -> Option<RawOutput>): State {
    Run(cfg, ds, Script(script, Budget(cfg)))
  }

  lemma RunNext(cfg: Config, ds: Adapter, outs: seq<Option<RawOutput>>, out: Option<RawOutput>)
    ensures Run(cfg, ds, outs + [out]) ==
            var st := Run(cfg, ds, outs); if st.phase.Running? then Step(cfg, ds, st, out) else st
  {
    assert (outs + [out])[..|outs|] == outs;
  }

  lemma RunStart(cfg: Config, ds: Adapter)
    ensures Run(cfg, ds, []) == Settle(cfg, ds, Initial(ds)) && Paced(cfg, Initial(ds))
    ensures cfg.maxRounds < 1 ==> Run(cfg, ds, []) == Initial(ds).(phase := Raised)
  {
  }

  lemma {:induction false} RunStays(cfg: Config, ds: Adapter, outs: seq<Option<RawOutput>>, n: nat)
    requires n <= |outs| && !Run(cfg, ds, outs[..n]).phase.Running?
    ensures Run(cfg, ds, outs) == Run(cfg, ds, outs[..n])
  {
    if n < |outs| {
      var shorter := outs[..|outs| - 1];
      assert shorter[..n] == outs[..n];
      RunStays(cfg, ds, shorter, n);
    } else {
      assert outs[..n] == outs;
    }
  }

  // ---------------------------------------------------------------- how far a run has come

  /** The most calls that `rounds` rounds can take. */
  function Room(cfg: Config, rounds: nat): (n: nat)
    ensures rounds == 0 ==> n == 0
  {
    if rounds == 0 then 0 else Room(cfg, rounds - 1) + Max(0, cfg.maxRetries) + 1
  }

  lemma {:induction false} RoomIsProduct(cfg: Config, rounds: nat)
    ensures Room(cfg, rounds) == rounds * (Max(0, cfg.maxRetries) + 1)
  {
    if rounds > 0 {
      RoomIsProduct(cfg, rounds - 1);
    }
  }

  lemma {:induction false} RoomGrows(cfg: Config, a: nat, b: nat)
    requires a <= b
    ensures Room(cfg, a) <= Room(cfg, b)
  {
    if a < b {
      RoomGrows(cfg, a, b - 1);
    }
  }

  /** The round and retry numbers, and the calls they leave room for. */
  ghost predicate Paced(cfg: Config, st: State) {
    && |st.rounds| == st.round <= Max(0, cfg.maxRounds)
    && st.calls == |st.log|
    && (st.phase.Running? ==> st.retry <= Max(0, cfg.maxRetries))
    && (!st.phase.Between? && !st.phase.Raised? ==> 1 <= st.round)
    && st.calls <= (if st.phase.Running? then Room(cfg, st.round - 1) + st.retry else Room(cfg, st.round))
    && (st.phase.Exhausted? ==> st.round == cfg.maxRounds)
  }

  lemma PacedAttempt(cfg: Config, ds: Adapter, st: State, raw: RawOutput)
    requires st.phase.Running? && Paced(cfg, st)
    ensures Paced(cfg, Attempt(cfg, ds, st, raw))
    ensures Attempt(cfg, ds, st, raw).calls == st.calls + 1
    ensures !Attempt(cfg, ds, st, raw).phase.Exhausted? && !Attempt(cfg, ds, st, raw).phase.Raised?
  {
    hide Decide;
  }

  lemma PacedRaise(cfg: Config, st: State)
    requires st.phase.Running? && Paced(cfg, st)
    ensures Paced(cfg, st.(phase := Raised))
  {
  }

  lemma AttemptKeeps(cfg: Config, ds: Adapter, st: State, raw: RawOutput)
    requires st.phase.Running?
    ensures var next := Attempt(cfg, ds, st, raw);
            && next.round == st.round && next.seen == st.seen && next.shown == st.shown
            && next.candidates == st.candidates && next.rounds == st.rounds
            && (next.phase.Running? ==> next.retry == st.retry + 1)
            && (next.phase.Terminated? ==> cfg.strict)
  {
    hide Decide;
  }

  lemma PacedSettle(cfg: Config, ds: Adapter, st: State)
    requires Paced(cfg, st)
    ensures Paced(cfg, Settle(cfg, ds, st)) && !Settle(cfg, ds, st).phase.Between?
    ensures Settle(cfg, ds, st).calls == st.calls
  {
    hide Room, ShownFrames, CandidateCount;
  }

  lemma PacedStep(cfg: Config, ds: Adapter, st: State, out: Option<RawOutput>)
    requires st.phase.Running? && Paced(cfg, st)
    ensures var next := Step(cfg, ds, st, out);
            Paced(cfg, next) && !next.phase.Between? && (next.phase.Running? ==> next.calls == st.calls + 1)
  {
    hide Attempt;
    if out.Some? {
      PacedAttempt(cfg, ds, st, out.value);
      PacedSettle(cfg, ds, Attempt(cfg, ds, st, out.value));
    }
  }

  /** However the model behaves, the run keeps its round and retry numbers in range and its calls in step with them. */
  lemma {:induction false} RunPaced(cfg: Config, ds: Adapter, outs: seq<Option<RawOutput>>)
    ensures Paced(cfg, Run(cfg, ds, outs)) && !Run(cfg, ds, outs).phase.Between?
    ensures Run(cfg, ds, outs).phase.Running? ==> Run(cfg, ds, outs).calls == |outs|
  {
    hide Step;
    if outs == [] {
      PacedSettle(cfg, ds, Initial(ds));
    } else {
      RunPaced(cfg, ds, outs[..|outs| - 1]);
      var st := Run(cfg, ds, outs[..|outs| - 1]);
      if st.phase.Running? {
        PacedStep(cfg, ds, st, outs[|outs| - 1]);
      }
    }
  }

  /** Termination: a sample takes at most max_rounds * (max_retries + 1) model calls, whatever the model says. */
  lemma RunEnds(cfg: Config, ds: Adapter, outs: seq<Option<RawOutput>>)
    ensures var budget := Max(0, cfg.maxRounds) * (Max(0, cfg.maxRetries) + 1);
            budget == Budget(cfg) && Run(cfg, ds, outs).calls <= budget
            && (|outs| >= budget ==> !Run(cfg, ds, outs).phase.Running?)
  {
    hide Run;
    RunPaced(cfg, ds, outs);
    var st := Run(cfg, ds, outs);
    RoomIsProduct(cfg, Max(0, cfg.maxRounds));
    RoomGrows(cfg, st.round, Max(0, cfg.maxRounds));
  }

  // ---------------------------------------------------------------- the loop

  datatype SampleOutcome = SampleOutcome(
    answerLetter: Option<char>,
    seenFrames: seq<int>,
    roundIdx: nat,
    effectiveRounds: nat,
    terminatedReason: Option<Reason>,
    terminatedInvalidAction: bool,
    answerFrameCount: nat)

  function OutcomeOf(st: State): Option<SampleOutcome> {
    if st.phase.Raised? then None
    else Some(SampleOutcome(if st.phase.Answered? then Some(st.phase.letter) else None, st.seen, st.round, st.effective,
                            st.lastReason, st.phase.Terminated?, if st.phase.Answered? then |st.shown| else 0))
  }

  /** The counters that a turn can move. */
  datatype Counters = Counters(calls: int, invalid: int, retries: int, fallbacks: int, effective: int, terminated: int)

  class RunStats {
    var processed: int
    var correct: int
    var totalRounds: int
    var totalFramesUsed: int
    var effectiveRoundsTotal: int
    var failed: int
    var invalidOutputs: int
    var invalidActionTerminated: int
    var totalRetries: int
    var totalModelCalls: int
    var fallbackFramesUsed: int

    constructor ()
      ensures processed == correct == totalRounds == totalFramesUsed == effectiveRoundsTotal == 0
      ensures failed == invalidOutputs == invalidActionTerminated == totalRetries == totalModelCalls == 0
      ensures fallbackFramesUsed == 0
    {
      processed, correct, totalRounds, totalFramesUsed, effectiveRoundsTotal := 0, 0, 0, 0, 0;
      failed, invalidOutputs, invalidActionTerminated, totalRetries := 0, 0, 0, 0;
      totalModelCalls, fallbackFramesUsed := 0, 0;
    }
  }

  /** The counters stand where they stood before the sample, at `base`, plus what the run has counted up to `st`. */
  predicate Counted(stats: RunStats, base: Counters, st: State)
    reads stats
  {
    && stats.totalModelCalls == base.calls + st.calls
    && stats.invalidOutputs == base.invalid + st.invalid
    && stats.totalRetries == base.retries + st.retries
    && stats.fallbackFramesUsed == base.fallbacks + st.fallbacks
    && stats.effectiveRoundsTotal == base.effective + st.effective
    && stats.invalidActionTerminated == base.terminated + (if st.phase.Terminated? then 1 else 0)
  }

  /** How a turn leaves the retry loop, or that it does not. */
  datatype TurnEnd = Again | RoundOver | GotAnswer(letter: char) | Stopped

  function EndOf(st: State): TurnEnd
    requires !st.phase.Exhausted? && !st.phase.Raised?
  {
    match st.phase
    case Running => Again
    case Between => RoundOver
    case Answered(letter) => GotAnswer(letter)
    case Terminated(_) => Stopped
  }

  /** The variables the loop carries agree with the state. */
  ghost predicate Tracks(st: State, round: int, seen: seq<int>, summary: string, effective: int, plan: seq<int>,
                         reason: Option<Reason>, calls: int, log: seq<LogEntry>)
  {
    && st.round == round && st.seen == seen && st.summary == summary && st.effective == effective
    && st.plan == plan && st.lastReason == reason && st.calls == calls && st.log == log
  }

  /** The part of the retry loop that deals with an invalid output. */
  method RejectTurn(cfg: Config, ds: Adapter, stats: RunStats, roundIdx: nat, retryIdx: nat, seenFrames: seq<int>,
                    candidates: seq<int>, planIn: seq<int>, reason: Reason, ghost st: State,
                    ghost base: Counters)
    returns (end: TurnEnd, nextFrames: seq<int>)
    requires st.phase.Running? && st.retry == retryIdx && st.candidates == candidates
    requires st.round == roundIdx && st.seen == seenFrames && st.plan == planIn
    requires Counted(stats, base, st)
    modifies stats`totalModelCalls, stats`invalidOutputs, stats`totalRetries, stats`fallbackFramesUsed,
             stats`effectiveRoundsTotal, stats`invalidActionTerminated
    ensures var next := Reject(cfg, ds, st, reason);
            !next.phase.Exhausted? && !next.phase.Raised? && end == EndOf(next) && nextFrames == next.plan
    ensures Counted(stats, base, Reject(cfg, ds, st, reason))
  {
    hide FallbackPlan, Reject;
    RejectMoves(cfg, ds, st, reason);
    end, nextFrames := RoundOver, planIn;
    stats.invalidOutputs := stats.invalidOutputs + 1;
    var resolution := Resolve(retryIdx, cfg.maxRetries, ds.retryable(reason), cfg.strict, ds.clearsPlan(reason));
    if resolution == Retry {
      stats.totalRetries := stats.totalRetries + 1;
      end := Again;
    } else {
      if ds.countExhausted(reason) {
        stats.totalRetries := stats.totalRetries + 1;
      }
      if resolution == Terminate {
        stats.invalidActionTerminated := stats.invalidActionTerminated + 1;
        end := Stopped;
      } else if resolution == ClearFramePlan {
        nextFrames := [];
      } else {
        stats.fallbackFramesUsed := stats.fallbackFramesUsed + 1;
        nextFrames := FallbackPlan(cfg, ds, roundIdx, seenFrames, candidates);
      }
    }
  }

  /** What a refused turn changes. */
  lemma RejectMoves(cfg: Config, ds: Adapter, st: State, reason: Reason)
    requires st.phase.Running?
    ensures var next := Reject(cfg, ds, st, reason);
            var how := ResolutionOf(cfg, ds, st.retry, reason);
            && next.calls == st.calls && next.invalid == st.invalid + 1 && next.effective == st.effective
            && next.retries == st.retries + (if how == Retry || ds.countExhausted(reason) then 1 else 0)
            && next.fallbacks == st.fallbacks + (if how == Fallback then 1 else 0)
            && next.phase == (if how == Retry then Running
                              else if how == Terminate then Terminated(reason) else Between)
            && next.plan == (if how == ClearFramePlan then []
                             else if how == Fallback then FallbackPlan(cfg, ds, st.round, st.seen, st.candidates)
                             else st.plan)
  {
    hide FallbackPlan, ResolutionOf;
  }

  /** The body of the retry loop, from the model's output to the point where the loop is left or repeated. */
  method TakeTurn(cfg: Config, ds: Adapter, stats: RunStats, roundIdx: nat, retryIdx: nat, seenFrames: seq<int>,
                  framesThisRound: seq<int>, candidates: seq<int>, summaryIn: string, effectiveIn: nat,
                  planIn: seq<int>, reasonIn: Option<Reason>, logIn: seq<LogEntry>, raw: RawOutput, ghost st: State,
                  ghost base: Counters)
    returns (end: TurnEnd, summaryState: string, effectiveRounds: nat, nextFrames: seq<int>,
             terminatedReason: Option<Reason>, log: seq<LogEntry>)
    requires st.phase.Running? && st.retry == retryIdx && st.shown == framesThisRound && st.candidates == candidates
    requires Tracks(st, roundIdx, seenFrames, summaryIn, effectiveIn, planIn, reasonIn, st.calls, logIn)
    requires Counted(stats, base, st)
    modifies stats`totalModelCalls, stats`invalidOutputs, stats`totalRetries, stats`fallbackFramesUsed,
             stats`effectiveRoundsTotal, stats`invalidActionTerminated
    ensures var next := Attempt(cfg, ds, st, raw);
            && !next.phase.Exhausted? && !next.phase.Raised? && end == EndOf(next)
            && Tracks(next, roundIdx, seenFrames, summaryState, effectiveRounds, nextFrames, terminatedReason,
                      st.calls + 1, log)
            && Counted(stats, base, next)
  {
    hide Decide, Reject;
    summaryState, effectiveRounds, nextFrames, terminatedReason := summaryIn, effectiveIn, planIn, reasonIn;
    stats.totalModelCalls := stats.totalModelCalls + 1;
    var turn := Turn(ds.numChoices, seenFrames, ds.frameCount, cfg.maxFrames, roundIdx, Some(cfg.maxRounds),
                     cfg.answerOnlyFinalRound, cfg.forceFinalAnswer && roundIdx >= cfg.maxRounds, MinSelects(cfg),
                     effectiveIn, candidates, cfg.useIds, cfg.requireCandidates);
    var decision := Decide(ds.judge, turn, raw);
    log := logIn + [LogEntry(roundIdx, retryIdx, seenFrames, framesThisRound, candidates, summaryIn, raw, decision)];
    assert EntryOf(cfg, ds, st, raw) == log[|logIn|];
    ghost var asked := st.(calls := st.calls + 1, log := log);
    match decision {
      case InvalidDecision(reason) =>
        terminatedReason := Some(reason);
        RejectKeeps(cfg, ds, asked, reason);
        end, nextFrames :=
          RejectTurn(cfg, ds, stats, roundIdx, retryIdx, seenFrames, candidates, planIn, reason, asked, base);
      case AnswerDecision(letter) =>
        end := GotAnswer(letter);
      case SelectDecision(summary, frames) =>
        if ds.commits(summary, |seenFrames|) {
          summaryState := summary;
        }
        nextFrames := Take(frames, cfg.maxFrames);
        effectiveRounds := effectiveIn + 1;
        stats.effectiveRoundsTotal := stats.effectiveRoundsTotal + 1;
        end := RoundOver;
    }
  }

  lemma RejectKeeps(cfg: Config, ds: Adapter, st: State, reason: Reason)
    ensures var next := Reject(cfg, ds, st, reason);
            && next.round == st.round && next.seen == st.seen && next.summary == st.summary
            && next.effective == st.effective && next.calls == st.calls && next.log == st.log
            && next.lastReason == Some(reason)
  {
  }

  /** The retry loop of one round: the model is asked until its output is accepted or the retries are used up. The loop
  is always left from inside, never by running out of retry numbers. */
  method PlayRound(cfg: Config, ds: Adapter, script: nat -> Option<RawOutput>, stats: RunStats, roundIdx: nat,
                   seenFrames: seq<int>, framesThisRound: seq<int>, candidates: seq<int>, summaryIn: string,
                   effectiveIn: nat, planIn: seq<int>, reasonIn: Option<Reason>, callsIn: nat, logIn: seq<LogEntry>,
                   ghost start: State, ghost base: Counters)
    returns (end: Option<TurnEnd>, summaryState: string, effectiveRounds: nat, nextFrames: seq<int>,
             terminatedReason: Option<Reason>, calls: nat, log: seq<LogEntry>, ghost st: State)
    requires start.phase.Running? && start.retry == 0 && Paced(cfg, start)
    requires start.shown == framesThisRound && start.candidates == candidates
    requires Tracks(start, roundIdx, seenFrames, summaryIn, effectiveIn, planIn, reasonIn, callsIn, logIn)
    requires start == Run(cfg, ds, Script(script, callsIn)) && Counted(stats, base, start)
    modifies stats`totalModelCalls, stats`invalidOutputs, stats`totalRetries, stats`fallbackFramesUsed,
             stats`effectiveRoundsTotal, stats`invalidActionTerminated
    ensures Paced(cfg, st) && st.shown == framesThisRound && !st.phase.Running? && !st.phase.Exhausted?
    ensures Tracks(st, roundIdx, seenFrames, summaryState, effectiveRounds, nextFrames, terminatedReason, calls, log)
    ensures end == (if st.phase.Raised? then None else Some(EndOf(st)))
    ensures st.phase.Raised? ==> st == Run(cfg, ds, Script(script, calls + 1))
    ensures !st.phase.Raised? ==> Settle(cfg, ds, st) == Run(cfg, ds, Script(script, calls))
    ensures st.phase.Terminated? ==> cfg.strict
    ensures Counted(stats, base, st)
  {
    hide Decide, Attempt, Run, Room;
    summaryState, effectiveRounds, nextFrames, terminatedReason := summaryIn, effectiveIn, planIn, reasonIn;
    calls, log, st := callsIn, logIn, start;
    var retryIdx, turnEnd := 0, Again;
    while turnEnd == Again && retryIdx < Max(0, cfg.maxRetries) + 1
      invariant 0 <= retryIdx <= Max(0, cfg.maxRetries) && Paced(cfg, st)
      invariant !st.phase.Exhausted? && !st.phase.Raised? && turnEnd == EndOf(st)
      invariant st.phase.Running? ==> st.retry == retryIdx
      invariant Settle(cfg, ds, st) == Run(cfg, ds, Script(script, calls))
      invariant st.shown == framesThisRound && st.candidates == candidates && (st.phase.Terminated? ==> cfg.strict)
      invariant Tracks(st, roundIdx, seenFrames, summaryState, effectiveRounds, nextFrames, terminatedReason, calls,
                       log)
      invariant Counted(stats, base, st)
      decreases turnEnd == Again, Max(0, cfg.maxRetries) - retryIdx
    {
      var out := script(calls);
      ScriptNext(cfg, ds, script, calls);
      if out == None {
        PacedRaise(cfg, st);
        st := st.(phase := Raised);
        end := None;
        return;
      }
      PacedAttempt(cfg, ds, st, out.value);
      AttemptKeeps(cfg, ds, st, out.value);
      turnEnd, summaryState, effectiveRounds, nextFrames, terminatedReason, log :=
        TakeTurn(cfg, ds, stats, roundIdx, retryIdx, seenFrames, framesThisRound, candidates, summaryState,
                 effectiveRounds, nextFrames, terminatedReason, log, out.value, st, base);
      st := Attempt(cfg, ds, st, out.value);
      calls := calls + 1;
      if turnEnd == Again {
        retryIdx := retryIdx + 1;
      }
    }
    end := Some(turnEnd);
  }

  lemma ScriptNext(cfg: Config, ds: Adapter, script: nat -> Option<RawOutput>, n: nat)
    ensures var st := Run(cfg, ds, Script(script, n));
            st.phase.Running? ==> Run(cfg, ds, Script(script, n + 1)) == Step(cfg, ds, st, script(n))
  {
    hide Step;
    assert Script(script, n + 1) == Script(script, n) + [script(n)];
    RunNext(cfg, ds, Script(script, n), script(n));
  }

  lemma Entering(cfg: Config, ds: Adapter, st: State)
    requires st.phase.Between? && st.round < cfg.maxRounds
    ensures var next := Settle(cfg, ds, st);
            && next.phase.Running? && next.round == st.round + 1 && next.retry == 0
            && next.shown == ShownFrames(cfg, ds, st.plan, st.seen)
            && next.seen == AppendNew(st.seen, next.shown)
            && next.candidates == (if cfg.useCandidates
                                   then ds.candidates(st.round + 1, CandidateCount(cfg), next.seen) else [])
            && next.rounds == st.rounds + [next.shown]
            && next.plan == st.plan && next.summary == st.summary && next.effective == st.effective
            && next.calls == st.calls && next.invalid == st.invalid && next.retries == st.retries
            && next.fallbacks == st.fallbacks && next.log == st.log && next.lastReason == st.lastReason
  {
  }

  lemma SettleCounts(cfg: Config, ds: Adapter, st: State)
    requires !st.phase.Running?
    ensures var next := Settle(cfg, ds, st);
            && next.calls == st.calls && next.invalid == st.invalid && next.retries == st.retries
            && next.fallbacks == st.fallbacks && next.effective == st.effective && next.log == st.log
            && next.lastReason == st.lastReason && (next.phase.Terminated? <==> st.phase.Terminated?)
            && (!st.phase.Between? || st.round >= cfg.maxRounds ==> !next.phase.Running?)
            && (!st.phase.Between? || st.round >= cfg.maxRounds >= 1 ==> OutcomeOf(next) == OutcomeOf(st))
            && (!st.phase.Between? ==> next == st)
  {
  }

  /** The frames shown in a round, and the seen frames with the new ones among them appended. */
  method ShowFrames(cfg: Config, ds: Adapter, nextFrames: seq<int>, seenIn: seq<int>)
    returns (framesThisRound: seq<int>, seenFrames: seq<int>)
    ensures framesThisRound == ShownFrames(cfg, ds, nextFrames, seenIn)
    ensures seenFrames == AppendNew(seenIn, framesThisRound)
  {
    framesThisRound := Without(nextFrames, seenIn);
    if framesThisRound == [] {
      framesThisRound := ds.fallbackFrames;
    }
    framesThisRound := Take(framesThisRound, cfg.maxFrames);
    seenFrames := seenIn;
    for k := 0 to |framesThisRound|
      invariant seenFrames == AppendNew(seenIn, framesThisRound[..k])
    {
      assert framesThisRound[..k + 1][..k] == framesThisRound[..k];
      if framesThisRound[k] !in seenFrames {
        seenFrames := seenFrames + [framesThisRound[k]];
      }
    }
    assert framesThisRound[..|framesThisRound|] == framesThisRound;
  }

  /** One turn of the round loop: the frames planned are shown, and the round is played to its end. */
  method OneRound(cfg: Config, ds: Adapter, script: nat -> Option<RawOutput>, stats: RunStats, roundIdx: nat,
                  planIn: seq<int>, seenIn: seq<int>, summaryIn: string, effectiveIn: nat, reasonIn: Option<Reason>,
                  callsIn: nat, logIn: seq<LogEntry>, ghost before: State, ghost base: Counters)
    returns (end: Option<TurnEnd>, framesThisRound: seq<int>, seenFrames: seq<int>, summaryState: string,
             effectiveRounds: nat, nextFrames: seq<int>, terminatedReason: Option<Reason>, calls: nat,
             log: seq<LogEntry>, ghost st: State)
    requires before.phase.Between? && Paced(cfg, before) && 1 <= roundIdx <= cfg.maxRounds
    requires Tracks(before, roundIdx - 1, seenIn, summaryIn, effectiveIn, planIn, reasonIn, callsIn, logIn)
    requires Settle(cfg, ds, before) == Run(cfg, ds, Script(script, callsIn)) && Counted(stats, base, before)
    modifies stats`totalModelCalls, stats`invalidOutputs, stats`totalRetries, stats`fallbackFramesUsed,
             stats`effectiveRoundsTotal, stats`invalidActionTerminated
    ensures Paced(cfg, st) && st.shown == framesThisRound && !st.phase.Running? && !st.phase.Exhausted?
    ensures Tracks(st, roundIdx, seenFrames, summaryState, effectiveRounds, nextFrames, terminatedReason, calls, log)
    ensures end == (if st.phase.Raised? then None else Some(EndOf(st)))
    ensures Settle(cfg, ds, st) == Run(cfg, ds, Script(script, if st.phase.Raised? then calls + 1 else calls))
    ensures st.phase.Terminated? ==> cfg.strict
    ensures Counted(stats, base, st)
  {
    hide Decide, Attempt, Run, Final, Budget, Room, Settle, Paced, ShownFrames, NonNegative, CandidateCount;
    framesThisRound, seenFrames := ShowFrames(cfg, ds, planIn, seenIn);
    var candidates := [];
    if cfg.useCandidates {
      candidates := ds.candidates(roundIdx, CandidateCount(cfg), seenFrames);
    }
    ghost var start := Settle(cfg, ds, before);
    PacedSettle(cfg, ds, before);
    Entering(cfg, ds, before);
    end, summaryState, effectiveRounds, nextFrames, terminatedReason, calls, log, st :=
      PlayRound(cfg, ds, script, stats, roundIdx, seenFrames, framesThisRound, candidates, summaryIn, effectiveIn,
                planIn, reasonIn, callsIn, logIn, start, base);
    if st.phase.Raised? {
      SettleCounts(cfg, ds, st);
    }
  }

  /** The round loop: rounds are played until one ends the run or there are none left. */
  method PlayRounds(cfg: Config, ds: Adapter, script: nat -> Option<RawOutput>, stats: RunStats, ghost base: Counters)
    returns (outcome: Option<SampleOutcome>, log: seq<LogEntry>, ghost st: State)
    requires cfg.maxRounds >= 1 && Counted(stats, base, Initial(ds))
    modifies stats`totalModelCalls, stats`invalidOutputs, stats`totalRetries, stats`fallbackFramesUsed,
             stats`effectiveRoundsTotal, stats`invalidActionTerminated
    ensures !st.phase.Running? && (st.phase.Between? ==> st.round == cfg.maxRounds)
    ensures exists n :: Settle(cfg, ds, st) == Run(cfg, ds, Script(script, n))
    ensures Counted(stats, base, st) && log == st.log && outcome == OutcomeOf(st)
  {
    hide Run, Settle, Paced, NonNegative, Counted, Script;
    var seenFrames, summaryState, effectiveRounds := [], ds.initialSummary, 0;
    var terminatedReason: Option<Reason>, terminatedInvalidAction := None, false;
    var nextFrames := NonNegative(ds.initialFrames);
    var answerLetter, answerFrameCount := None, 0;
    var calls, roundIdx := 0, 0;
    log, st := [], Initial(ds);
    RunStart(cfg, ds);
    NoCalls(script);
    while roundIdx < cfg.maxRounds
      invariant 0 <= roundIdx <= cfg.maxRounds && Paced(cfg, st)
      invariant st.phase.Between? && answerLetter == None && !terminatedInvalidAction && answerFrameCount == 0
      invariant Tracks(st, roundIdx, seenFrames, summaryState, effectiveRounds, nextFrames, terminatedReason, calls,
                       log)
      invariant Settle(cfg, ds, st) == Run(cfg, ds, Script(script, calls))
      invariant Counted(stats, base, st)
    {
      roundIdx := roundIdx + 1;
      var end, framesThisRound;
      end, framesThisRound, seenFrames, summaryState, effectiveRounds, nextFrames, terminatedReason, calls, log, st :=
        OneRound(cfg, ds, script, stats, roundIdx, nextFrames, seenFrames, summaryState, effectiveRounds,
                 terminatedReason, calls, log, st, base);
      if end == None {
        return None, log, st;
      }
      if end.value.GotAnswer? {
        answerLetter, answerFrameCount := Some(end.value.letter), |framesThisRound|;
        break;
      }
      if cfg.strict && end.value == Stopped {
        terminatedInvalidAction := true;
        break;
      }
    }
    outcome := Some(SampleOutcome(answerLetter, seenFrames, roundIdx, effectiveRounds, terminatedReason,
                                  terminatedInvalidAction, answerFrameCount));
  }

  lemma NoCalls(script: nat -> Option<RawOutput>)
    ensures Script(script, 0) == []
  {
  }

  /** `run_sample`, with the model given as the outputs of its successive calls. An exception is the outcome `None`; the
  counters keep what was counted up to it, except that the rounds of the sample are then not added. */
  method RunSample(cfg: Config, ds: Adapter, script: nat -> Option<RawOutput>, stats: RunStats)
    returns (outcome: Option<SampleOutcome>, log: seq<LogEntry>)
    modifies stats`totalModelCalls, stats`invalidOutputs, stats`totalRetries, stats`fallbackFramesUsed,
             stats`effectiveRoundsTotal, stats`invalidActionTerminated, stats`totalRounds
    ensures outcome == OutcomeOf(Final(cfg, ds, script)) && log == Final(cfg, ds, script).log
    ensures var st := Final(cfg, ds, script);
            (outcome.None? <==> st.phase.Raised?)
            && (outcome.Some? ==>
                  var r := outcome.value;
                  && r.answerLetter == (if st.phase.Answered? then Some(st.phase.letter) else None)
                  && r.seenFrames == st.seen && r.roundIdx == st.round && r.effectiveRounds == st.effective
                  && r.terminatedReason == st.lastReason && r.terminatedInvalidAction == st.phase.Terminated?
                  && r.answerFrameCount == (if st.phase.Answered? then |st.shown| else 0))
    ensures var st := Final(cfg, ds, script);
            && stats.totalModelCalls == old(stats.totalModelCalls) + st.calls
            && stats.invalidOutputs == old(stats.invalidOutputs) + st.invalid
            && stats.totalRetries == old(stats.totalRetries) + st.retries
            && stats.fallbackFramesUsed == old(stats.fallbackFramesUsed) + st.fallbacks
            && stats.effectiveRoundsTotal == old(stats.effectiveRoundsTotal) + st.effective
            && stats.invalidActionTerminated == old(stats.invalidActionTerminated)
                                                + (if st.phase.Terminated? then 1 else 0)
    ensures stats.totalRounds == old(stats.totalRounds) + (if outcome.Some? then outcome.value.roundIdx else 0)
  {
    hide Decide, Attempt, Run, Final, Budget, Room, Settle, Paced;
    if cfg.maxRounds < 1 {
      RunStart(cfg, ds);
      assert Script(script, 0) == [];
      EndOfRun(cfg, ds, script, 0);
      return None, [];
    }
    ghost var base := Counters(stats.totalModelCalls, stats.invalidOutputs, stats.totalRetries,
                              stats.fallbackFramesUsed, stats.effectiveRoundsTotal,
                              stats.invalidActionTerminated);
    ghost var st;
    outcome, log, st := PlayRounds(cfg, ds, script, stats, base);
    SettleCounts(cfg, ds, st);
    ghost var n :| Settle(cfg, ds, st) == Run(cfg, ds, Script(script, n));
    EndOfRun(cfg, ds, script, n);
    if outcome.Some? {
      stats.totalRounds := stats.totalRounds + outcome.value.roundIdx;
    }
  }

  /** A run that has ended after `n` calls is at its final state. */
  lemma EndOfRun(cfg: Config, ds: Adapter, script: nat -> Option<RawOutput>, n: nat)
    requires !Run(cfg, ds, Script(script, n)).phase.Running?
    ensures Final(cfg, ds, script) == Run(cfg, ds, Script(script, n))
  {
    var b := Budget(cfg);
    RunEnds(cfg, ds, Script(script, b));
    if n <= b {
      assert Script(script, b)[..n] == Script(script, n);
      RunStays(cfg, ds, Script(script, b), n);
    } else {
      assert Script(script, n)[..b] == Script(script, b);
      RunStays(cfg, ds, Script(script, n), b);
    }
  }
}
