/** What holds in every state of every run of the loop, strict or lenient, whatever the model says. */
module RunFacts {
  import opened Py
  import opened Protocol
  import opened Policy
  import opened Engine

  // ---------------------------------------------------------------- the books balance

  /** What became of one logged output. */
  datatype Fate = GaveAnswer | Selected | Retried | GaveUp | Cleared | FellBack

  function FateOf(cfg: Config, ds: Adapter, e: LogEntry): Fate {
    match e.decision
    case AnswerDecision(_) => GaveAnswer
    case SelectDecision(_, _) => Selected
    case InvalidDecision(reason) =>
      match ResolutionOf(cfg, ds, e.retry, reason)
      case Retry => Retried
      case Terminate => GaveUp
      case ClearFramePlan => Cleared
      case Fallback => FellBack
  }

  function Count(cfg: Config, ds: Adapter, log: seq<LogEntry>, fate: Fate): nat {
    if log == [] then 0
    else Count(cfg, ds, log[..|log| - 1], fate) + if FateOf(cfg, ds, log[|log| - 1]) == fate then 1 else 0
  }

  /** The exhausted invalid outputs that the dataset wants counted among the retries. */
  function Charged(cfg: Config, ds: Adapter, log: seq<LogEntry>): nat {
    if log == [] then 0
    else
      var e := log[|log| - 1];
      Charged(cfg, ds, log[..|log| - 1])
      + if e.decision.InvalidDecision? && FateOf(cfg, ds, e) != Retried && ds.countExhausted(e.decision.reason)
        then 1 else 0
  }

  function One(b: bool): nat { if b then 1 else 0 }

  /** Every counter is a count over the log: model calls are answers, selects and invalid outputs; every round entered
  ended in exactly one way, or is the one the run is in or broke off in. */
  ghost predicate Balanced(cfg: Config, ds: Adapter, st: State) {
    var n := (fate: Fate) => Count(cfg, ds, st.log, fate);
    && st.calls == |st.log|
    && st.effective == n(Selected)
    && st.fallbacks == n(FellBack)
    && One(st.phase.Answered?) == n(GaveAnswer)
    && One(st.phase.Terminated?) == n(GaveUp)
    && st.invalid == n(Retried) + n(GaveUp) + n(Cleared) + n(FellBack)
    && st.retries == n(Retried) + Charged(cfg, ds, st.log)
    && st.calls == st.invalid + st.effective + One(st.phase.Answered?)
    && st.round == st.effective + st.fallbacks + n(Cleared) + One(st.phase.Answered?) + One(st.phase.Terminated?)
                   + One(st.phase.Running? || (st.phase.Raised? && st.round > 0))
  }

  lemma CountNext(cfg: Config, ds: Adapter, log: seq<LogEntry>, e: LogEntry, fate: Fate)
    ensures Count(cfg, ds, log + [e], fate) == Count(cfg, ds, log, fate) + One(FateOf(cfg, ds, e) == fate)
    ensures Charged(cfg, ds, log + [e]) ==
            Charged(cfg, ds, log) + One(e.decision.InvalidDecision? && FateOf(cfg, ds, e) != Retried
                                        && ds.countExhausted(e.decision.reason))
  {
    assert (log + [e])[..|log|] == log;
  }

  lemma BalancedAttempt(cfg: Config, ds: Adapter, st: State, raw: RawOutput)
    requires st.phase.Running? && Balanced(cfg, ds, st)
    ensures Balanced(cfg, ds, Attempt(cfg, ds, st, raw))
  {
    hide Decide, Count, Charged, FallbackPlan, ResolutionOf;
    var e := EntryOf(cfg, ds, st, raw);
    forall fate ensures Count(cfg, ds, st.log + [e], fate)
                        == Count(cfg, ds, st.log, fate) + One(FateOf(cfg, ds, e) == fate) {
      CountNext(cfg, ds, st.log, e, fate);
    }
    CountNext(cfg, ds, st.log, e, Retried);
  }

  lemma BalancedStep(cfg: Config, ds: Adapter, st: State, out: Option<RawOutput>)
    requires st.phase.Running? && Paced(cfg, st) && Balanced(cfg, ds, st)
    ensures Balanced(cfg, ds, Step(cfg, ds, st, out))
  {
    hide Attempt, Count, Charged, ShownFrames, Paced;
    if out.Some? {
      BalancedAttempt(cfg, ds, st, out.value);
      PacedAttempt(cfg, ds, st, out.value);
      AttemptKeeps(cfg, ds, st, out.value);
    }
  }

  /** Conservation, over every run, strict or not. */
  lemma {:induction false} RunBalanced(cfg: Config, ds: Adapter, outs: seq<Option<RawOutput>>)
    ensures Balanced(cfg, ds, Run(cfg, ds, outs))
  {
    hide Step;
    if outs != [] {
      var st := Run(cfg, ds, outs[..|outs| - 1]);
      RunBalanced(cfg, ds, outs[..|outs| - 1]);
      RunPaced(cfg, ds, outs[..|outs| - 1]);
      if st.phase.Running? {
        BalancedStep(cfg, ds, st, outs[|outs| - 1]);
      }
    }
  }

  // ---------------------------------------------------------------- the seen frames

  /** The hooks of the dataset only ever name frames of the video, and the fallback names some. */
  ghost predicate HooksInRange(ds: Adapter) {
    && (forall x :: x in ds.initialFrames ==> x < ds.frameCount)
    && ds.fallbackFrames != [] && AllIn(ds.fallbackFrames, 0, ds.frameCount)
    && (forall round: nat, k, seen :: AllIn(ds.candidates(round, k, seen), 0, ds.frameCount))
    && (forall round: nat, seen :: AllIn(ds.sampleUnseen(round, seen), 0, ds.frameCount))
  }

  ghost predicate SeenSound(cfg: Config, ds: Adapter, st: State) {
    && Distinct(st.seen)
    && AllIn(st.seen, 0, ds.frameCount)
    && AllIn(st.plan, 0, ds.frameCount)
    && AllIn(st.candidates, 0, ds.frameCount)
    && |st.seen| <= st.round * cfg.maxFrames
    && RoundsSeen(st.rounds, st.seen, cfg.maxFrames)
  }

  ghost predicate Within(a: seq<int>, b: seq<int>) { forall x :: x in a ==> x in b }

  /** Every round showed at most `budget` frames, all of them seen since. */
  ghost predicate RoundsSeen(rounds: seq<seq<int>>, seen: seq<int>, budget: int) {
    forall r :: 0 <= r < |rounds| ==> |rounds[r]| <= budget && Within(rounds[r], seen)
  }

  lemma RoundsGrow(rounds: seq<seq<int>>, seen: seq<int>, shown: seq<int>, budget: int)
    requires RoundsSeen(rounds, seen, budget) && |shown| <= budget
    ensures RoundsSeen(rounds + [shown], AppendNew(seen, shown), budget)
  {
    var all, grown := AppendNew(seen, shown), rounds + [shown];
    forall r | 0 <= r < |grown| ensures |grown[r]| <= budget && Within(grown[r], all) {
      if r < |rounds| {
        assert grown[r] == rounds[r];
      }
    }
  }

  lemma SeenAttempt(cfg: Config, ds: Adapter, st: State, raw: RawOutput)
    requires HooksInRange(ds) && cfg.maxFrames >= 0
    requires st.phase.Running? && SeenSound(cfg, ds, st)
    ensures SeenSound(cfg, ds, Attempt(cfg, ds, st, raw))
  {
    hide Decide, Distinct, RoundsSeen;
    var t := TurnOf(cfg, ds, st);
    if Decide(ds.judge, t, raw).SelectDecision? {
      AcceptedSelect(ds.judge, t, raw);
    }
    AttemptKeeps(cfg, ds, st, raw);
  }

  lemma ShownInRange(cfg: Config, ds: Adapter, plan: seq<int>, seen: seq<int>)
    requires HooksInRange(ds) && cfg.maxFrames >= 0 && AllIn(plan, 0, ds.frameCount)
    ensures var shown := ShownFrames(cfg, ds, plan, seen);
            |shown| <= cfg.maxFrames && AllIn(shown, 0, ds.frameCount)
  {
  }

  lemma SeenSettle(cfg: Config, ds: Adapter, st: State)
    requires HooksInRange(ds) && cfg.maxFrames >= 0 && SeenSound(cfg, ds, st)
    ensures SeenSound(cfg, ds, Settle(cfg, ds, st)) && st.seen <= Settle(cfg, ds, st).seen
  {
    hide ShownFrames, Settle, Distinct, RoundsSeen;
    SettleExtends(cfg, ds, st);
    if st.phase.Between? && st.round < cfg.maxRounds {
      Entering(cfg, ds, st);
      ShownInRange(cfg, ds, st.plan, st.seen);
      RoundsGrow(st.rounds, st.seen, ShownFrames(cfg, ds, st.plan, st.seen), cfg.maxFrames);
      MulNext(st.round, cfg.maxFrames);
    } else {
      SettleKeeps(cfg, ds, st);
    }
  }

  lemma SettleKeeps(cfg: Config, ds: Adapter, st: State)
    requires !(st.phase.Between? && st.round < cfg.maxRounds)
    ensures exists phase :: Settle(cfg, ds, st) == st.(phase := phase)
  {
  }

  lemma SeenStep(cfg: Config, ds: Adapter, st: State, out: Option<RawOutput>)
    requires HooksInRange(ds) && cfg.maxFrames >= 0
    requires st.phase.Running? && SeenSound(cfg, ds, st)
    ensures SeenSound(cfg, ds, Step(cfg, ds, st, out)) && st.seen <= Step(cfg, ds, st, out).seen
  {
    hide Attempt, Settle;
    if out.Some? {
      SeenAttempt(cfg, ds, st, out.value);
      AttemptKeeps(cfg, ds, st, out.value);
      SeenSettle(cfg, ds, Attempt(cfg, ds, st, out.value));
    } else {
      hide *;
      assert st.seen <= st.(phase := Raised).seen;
    }
  }

  /** Through selects, retries, cleared plans and fallbacks alike, the seen frames are distinct frames of the video, at
  most max_frames_per_round for each round entered, and include all that was shown. */
  lemma {:induction false} SeenInRange(cfg: Config, ds: Adapter, outs: seq<Option<RawOutput>>)
    requires HooksInRange(ds) && cfg.maxFrames >= 0
    ensures SeenSound(cfg, ds, Run(cfg, ds, outs))
  {
    hide Step;
    if outs == [] {
      SeenSettle(cfg, ds, Initial(ds));
    } else {
      var st := Run(cfg, ds, outs[..|outs| - 1]);
      SeenInRange(cfg, ds, outs[..|outs| - 1]);
      if st.phase.Running? {
        SeenStep(cfg, ds, st, outs[|outs| - 1]);
      }
    }
  }

  lemma SettleExtends(cfg: Config, ds: Adapter, st: State)
    ensures st.seen <= Settle(cfg, ds, st).seen && st.rounds <= Settle(cfg, ds, st).rounds
    ensures Settle(cfg, ds, st).log == st.log
  {
  }

  lemma AttemptLogs(cfg: Config, ds: Adapter, st: State, raw: RawOutput)
    ensures Attempt(cfg, ds, st, raw).log == st.log + [EntryOf(cfg, ds, st, raw)]
  {
    hide Decide;
  }

  /** The seen frames, the rounds shown and the log only ever grow at their ends. */
  lemma {:induction false} RunExtends(cfg: Config, ds: Adapter, outs: seq<Option<RawOutput>>, n: nat)
    requires n <= |outs|
    ensures var (a, b) := (Run(cfg, ds, outs[..n]), Run(cfg, ds, outs));
            a.seen <= b.seen && a.rounds <= b.rounds && a.log <= b.log
  {
    hide Attempt, Settle;
    if n == |outs| {
      assert outs[..n] == outs;
    } else {
      var shorter := outs[..|outs| - 1];
      assert shorter[..n] == outs[..n];
      RunExtends(cfg, ds, shorter, n);
      var st, out := Run(cfg, ds, shorter), outs[|outs| - 1];
      if st.phase.Running? && out.Some? {
        AttemptKeeps(cfg, ds, st, out.value);
        AttemptLogs(cfg, ds, st, out.value);
        SettleExtends(cfg, ds, Attempt(cfg, ds, st, out.value));
      }
    }
  }
}
