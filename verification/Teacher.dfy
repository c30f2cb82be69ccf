/** The converter of teacher traces, a second implementation of the loop, and its agreement with the loop itself. */
module Teacher {
  import opened Py
  import opened Protocol
  import opened Policy
  import opened Engine
  import opened RunFacts
  import opened Frames
  import opened NextQa

  datatype TraceConfig = TraceConfig(frameCount: int, numChoices: int, maxRounds: int, maxFrames: int,
                                     initialSummary: string)

  datatype TraceError =
    | WrongLength | NotAnAction | AnswerNotLast | LastNotAnswer
    | BadBody | RepeatedFrames | TooMany | OutOfRange | AlreadySeen

  /** One entry of the converted trace. */
  datatype TraceEntry = TraceEntry(
    round: nat,
    seen: seq<int>,
    shown: seq<int>,
    requested: Option<seq<int>>,
    summaryIn: string,
    raw: RawOutput,
    answer: Option<char>)

  function TraceShown(c: TraceConfig, plan: seq<int>, seen: seq<int>): seq<int> {
    var unseen := Without(plan, seen);
    Take(if unseen == [] then SampleUniform(c.frameCount, 1) else unseen, c.maxFrames)
  }

  /** The frames of a select body, or why the converter refuses it. */
  function TraceFrames(c: TraceConfig, body: string, seen: seq<int>): Result<seq<int>, TraceError> {
    if !IsStrictSelectBody(body) then Err(BadBody)
    else
      var parsed := ParseIntList(body);
      var frames := Dedupe(parsed);
      if |parsed| != |frames| then Err(RepeatedFrames)
      else if |frames| > c.maxFrames then Err(TooMany)
      else if SomeOutside(frames, 0, c.frameCount) then Err(OutOfRange)
      else if SomeSeen(frames, seen) then Err(AlreadySeen)
      else Ok(frames)
  }

  /** The entries of the outputs from `round` on, given the frames seen, the plan and the summary before that round. */
  function ConvertFrom(c: TraceConfig, round: nat, rest: seq<RawOutput>, seenBefore: seq<int>, plan: seq<int>,
                       summary: string): Result<seq<TraceEntry>, TraceError>
    decreases |rest|
  {
    if rest == [] then Ok([])
    else
      var raw, last := rest[0], |rest| == 1;
      var shown := TraceShown(c, plan, seenBefore);
      var seen := AppendNew(seenBefore, shown);
      match ParseStrictAction(raw)
      case None => Err(NotAnAction)
      case Some(AnswerAction(_, body)) =>
        if !last then Err(AnswerNotLast)
        else Ok([TraceEntry(round, seen, shown, None, summary, raw, NormalizeAnswer(body, Labels(c.numChoices)))])
      case Some(SelectAction(_, newSummary, body)) =>
        if last then Err(LastNotAnswer)
        else
          match TraceFrames(c, body, seen)
          case Err(e) => Err(e)
          case Ok(frames) =>
            match ConvertFrom(c, round + 1, rest[1..], seen, frames, Strip(newSummary))
            case Err(e) => Err(e)
            case Ok(entries) => Ok([TraceEntry(round, seen, shown, Some(frames), summary, raw, None)] + entries)
  }

  /** `_log_entries_from_rounds` */
  function Convert(c: TraceConfig, outputs: seq<RawOutput>): Result<seq<TraceEntry>, TraceError> {
    if !(1 <= |outputs| <= c.maxRounds) then Err(WrongLength)
    else ConvertFrom(c, 1, outputs, [], SampleUniform(c.frameCount, c.maxFrames), c.initialSummary)
  }

  function Prepend(entries: seq<TraceEntry>, r: Result<seq<TraceEntry>, TraceError>)
    : Result<seq<TraceEntry>, TraceError>
  {
    match r
    case Err(e) => Err(e)
    case Ok(more) => Ok(entries + more)
  }

  /** The loop of the converter, as the source runs it. */
  method LogEntriesFromRounds(c: TraceConfig, outputs: seq<RawOutput>)
    returns (r: Result<seq<TraceEntry>, TraceError>)
    ensures r == Convert(c, outputs)
  {
    hide IsStrictSelectBody, Strip, NormalizeAnswer, SampleUniform, TraceShown, TraceFrames, ParseStrictAction;
    if !(1 <= |outputs| <= c.maxRounds) {
      return Err(WrongLength);
    }
    var summaryState, seenFrames := c.initialSummary, [];
    var nextFrames := SampleUniform(c.frameCount, c.maxFrames);
    var entries := [];
    var k := 0;
    assert outputs[0..] == outputs;
    PrependNone(ConvertFrom(c, 1, outputs, [], nextFrames, summaryState));
    while k < |outputs|
      invariant 0 <= k <= |outputs|
      invariant Convert(c, outputs)
                == Prepend(entries, ConvertFrom(c, k + 1, outputs[k..], seenFrames, nextFrames, summaryState))
    {
      var raw, last := outputs[k], k + 1 == |outputs|;
      assert outputs[k..][0] == raw && outputs[k..][1..] == outputs[k + 1..];
      var shown := TraceShown(c, nextFrames, seenFrames);
      ghost var was := seenFrames;
      seenFrames := AppendNew(seenFrames, shown);
      var action := ParseStrictAction(raw);
      if action == None {
        return Err(NotAnAction);
      }
      if !last && action.value.AnswerAction? {
        return Err(AnswerNotLast);
      }
      if last && action.value.SelectAction? {
        return Err(LastNotAnswer);
      }
      match action.value {
        case SelectAction(_, newSummary, body) =>
          var frames := TraceFrames(c, body, seenFrames);
          if frames.Err? {
            return Err(frames.error);
          }
          var entry := TraceEntry(k + 1, seenFrames, shown, Some(frames.value), summaryState, raw, None);
          PrependOne(entries, entry,
                     ConvertFrom(c, k + 2, outputs[k + 1..], seenFrames, frames.value, Strip(newSummary)));
          entries := entries + [entry];
          summaryState, nextFrames := Strip(newSummary), frames.value;
        case AnswerAction(_, body) =>
          var letter := NormalizeAnswer(body, Labels(c.numChoices));
          entries := entries + [TraceEntry(k + 1, seenFrames, shown, None, summaryState, raw, letter)];
          return Ok(entries);
      }
      k := k + 1;
    }
    assert entries + [] == entries;
    r := Ok(entries);
  }

  lemma PrependNone(r: Result<seq<TraceEntry>, TraceError>)
    ensures Prepend([], r) == r
  {
    if r.Ok? {
      assert [] + r.value == r.value;
    }
  }

  lemma PrependOne(entries: seq<TraceEntry>, e: TraceEntry, r: Result<seq<TraceEntry>, TraceError>)
    ensures Prepend(entries, match r case Err(x) => Err(x) case Ok(more) => Ok([e] + more)) == Prepend(entries + [e], r)
  {
    if r.Ok? {
      assert entries + ([e] + r.value) == entries + [e] + r.value;
    }
  }

  // ---------------------------------------------------------------- the loop replays a converted trace

  /** What the converter leaves unchecked and the loop insists on: good summaries and strict answers. */
  ghost predicate Quality(ds: Adapter, good: string -> bool, outs: seq<RawOutput>) {
    forall i :: 0 <= i < |outs| ==> QualityTurn(ds, good, outs[i])
  }

  ghost predicate QualityTurn(ds: Adapter, good: string -> bool, raw: RawOutput) {
    match ParseStrictAction(raw)
    case Some(SelectAction(_, s, _)) => s != "" && good(s) && forall n: nat :: !ds.judge.summaryStale(s, n)
    case Some(AnswerAction(_, body)) => IsStrictAnswerBody(body, Labels(ds.numChoices))
    case None => true
  }

  /** A line of the loop's log and an entry of the converted trace tell the same story. */
  ghost predicate Agrees(e: LogEntry, t: TraceEntry) {
    && e.round == t.round && e.retry == 0 && e.seen == t.seen && e.shown == t.shown
    && e.summaryIn == t.summaryIn && e.raw == t.raw
    && (t.requested.Some? ==> e.decision.SelectDecision? && e.decision.frames == t.requested.value)
    && (t.requested.None? ==> t.answer.Some? && e.decision == AnswerDecision(t.answer.value))
  }

  ghost predicate AllAgree(log: seq<LogEntry>, entries: seq<TraceEntry>) {
    |log| == |entries| && forall i :: 0 <= i < |log| ==> Agrees(log[i], entries[i])
  }

  /** The trace of a run from its line `n` on: its entries agree with the lines of the log, and its answer is the one
  of the run. */
  ghost predicate Told(st: State, n: nat, r: Result<seq<TraceEntry>, TraceError>) {
    && r.Ok? && r.value != [] && n <= |st.log| && AllAgree(st.log[n..], r.value)
    && r.value[|r.value| - 1].answer.Some? && st.phase == Answered(r.value[|r.value| - 1].answer.value)
  }

  function Given(outs: seq<RawOutput>): (r: seq<Option<RawOutput>>)
    ensures |r| == |outs| && forall i :: 0 <= i < |outs| ==> r[i] == Some(outs[i])
  {
    seq(|outs|, i requires 0 <= i < |outs| => Some(outs[i]))
  }

  /** The setting of the converter: NExT-QA hooks, strict, the answer forced last, plain frame numbers, no minimum of
  selects, and early answers allowed. */
  ghost predicate Replay(cfg: Config, ds: Adapter, good: string -> bool, c: TraceConfig) {
    && IsNextQa(cfg, ds, good) && ds.frameCount >= 1
    && cfg.strict && cfg.forceFinalAnswer && !cfg.useCandidates && cfg.minSelectRounds <= 0 && !cfg.answerOnlyFinalRound
    && c == TraceConfig(ds.frameCount, ds.numChoices, cfg.maxRounds, cfg.maxFrames, ds.initialSummary)
  }

  /** The loop is in a round it has just entered with the converter's frames, plan and summary. */
  ghost predicate AtRound(cfg: Config, ds: Adapter, c: TraceConfig, st: State, done: nat, seenBefore: seq<int>,
                          plan: seq<int>, summary: string)
  {
    && st.phase.Running? && st.round == done + 1 && st.retry == 0 && st.invalid == 0 && st.calls == done
    && |st.log| == done && st.effective == done && st.candidates == []
    && st.shown == TraceShown(c, plan, seenBefore)
    && st.seen == AppendNew(seenBefore, st.shown) && Distinct(st.seen)
    && st.summary == summary
  }

  lemma SameShown(cfg: Config, ds: Adapter, good: string -> bool, c: TraceConfig, plan: seq<int>, seen: seq<int>)
    requires Replay(cfg, ds, good, c)
    ensures ShownFrames(cfg, ds, plan, seen) == TraceShown(c, plan, seen)
  {
  }

  lemma ReplayStart(cfg: Config, ds: Adapter, good: string -> bool, c: TraceConfig)
    requires Replay(cfg, ds, good, c) && cfg.maxRounds >= 1
    ensures AtRound(cfg, ds, c, Run(cfg, ds, []), 0, [], SampleUniform(c.frameCount, c.maxFrames), c.initialSummary)
  {
    hide TraceShown, ShownFrames, SampleUniform;
    SampleInRange(ds.frameCount, cfg.maxFrames);
    var init := SampleUniform(ds.frameCount, cfg.maxFrames);
    forall i | 0 <= i < |init| ensures init[i] >= 0 {
      var x := init[i];
      assert x in init;
    }
    NonNegativeId(init);
    SameShown(cfg, ds, good, c, init, []);
  }

  /** A select the converter takes is accepted by the policy with the same frames. */
  lemma SelectAgrees(j: Judge, t: Turn, c: TraceConfig, raw: RawOutput)
    requires ParseStrictAction(raw).Some? && ParseStrictAction(raw).value.SelectAction?
    requires var a := ParseStrictAction(raw).value;
             && TraceFrames(c, a.body, t.seen).Ok?
             && j.summaryValid(a.summary, |Elems(t.seen)|) && !j.summaryStale(a.summary, |Elems(t.seen)|)
             && !j.rangeSyntax(a.body)
    requires t.candidates == [] && !t.requireAnswer && t.frameCount == c.frameCount && t.maxFrames == c.maxFrames
    ensures var a := ParseStrictAction(raw).value;
            Decide(j, t, raw) == SelectDecision(a.summary, TraceFrames(c, a.body, t.seen).value)
  {
    var a := ParseStrictAction(raw).value;
    hide ParseStrictAction, IsStrictSelectBody, ParseIntList;
    var frames := Dedupe(ParseIntList(a.body));
    StrictBodyNonEmpty(a.body);
    assert ParseIntList(a.body)[0] in frames;
    WithoutNone(frames, t.seen);
  }

  /** An answer in the trace is accepted by the policy as the letter the converter reads. */
  lemma AnswerAgrees(j: Judge, t: Turn, raw: RawOutput)
    requires ParseStrictAction(raw).Some? && ParseStrictAction(raw).value.AnswerAction?
    requires var body := ParseStrictAction(raw).value.body;
             IsStrictAnswerBody(body, Labels(t.numChoices))
             && j.normalize(body) == NormalizeAnswer(body, Labels(t.numChoices))
    requires t.minSelectRounds <= t.selectRoundsSoFar && !t.answerOnlyFinalRound
    ensures var letter := NormalizeAnswer(ParseStrictAction(raw).value.body, Labels(t.numChoices));
            letter.Some? && Decide(j, t, raw) == AnswerDecision(letter.value)
  {
    var body := ParseStrictAction(raw).value.body;
    hide ParseStrictAction;
    StrictAnswerNormalizes(body, Labels(t.numChoices));
  }

  lemma ParsedSummaryStripped(raw: RawOutput)
    ensures var a := ParseStrictAction(raw);
            a.Some? && a.value.SelectAction? ==> Strip(a.value.summary) == a.value.summary
  {
    if SelectTags(raw.parts) {
      StripIdempotent(raw.parts[2].text);
    }
  }

  /** One select of the trace takes the loop into the next round in step with the converter. */
  lemma ReplaySelect(cfg: Config, ds: Adapter, good: string -> bool, c: TraceConfig, st: State, raw: RawOutput,
                     done: nat, seenBefore: seq<int>, plan: seq<int>, summary: string)
    requires Replay(cfg, ds, good, c) && AtRound(cfg, ds, c, st, done, seenBefore, plan, summary)
    requires done + 1 < cfg.maxRounds && QualityTurn(ds, good, raw)
    requires ParseStrictAction(raw).Some? && ParseStrictAction(raw).value.SelectAction?
    requires TraceFrames(c, ParseStrictAction(raw).value.body, st.seen).Ok?
    ensures var a, next := ParseStrictAction(raw).value, Step(cfg, ds, st, Some(raw));
            var frames := TraceFrames(c, a.body, st.seen).value;
            && AtRound(cfg, ds, c, next, done + 1, st.seen, frames, Strip(a.summary))
            && next.log == st.log + [EntryOf(cfg, ds, st, raw)]
            && Agrees(EntryOf(cfg, ds, st, raw),
                      TraceEntry(done + 1, st.seen, st.shown, Some(frames), summary, raw, None))
  {
    hide ParseStrictAction, Decide, TraceFrames, Settle, ShownFrames, TraceShown;
    var a := ParseStrictAction(raw).value;
    NoRangeInBody(c, a.body, st.seen);
    SelectAgrees(ds.judge, TurnOf(cfg, ds, st), c, raw);
    FramesFit(c, a.body, st.seen);
    ParsedSummaryStripped(raw);
    var after := Attempt(cfg, ds, st, raw);
    Entering(cfg, ds, after);
    SameShown(cfg, ds, good, c, after.plan, after.seen);
  }

  lemma NoRangeInBody(c: TraceConfig, body: string, seen: seq<int>)
    requires TraceFrames(c, body, seen).Ok?
    ensures !HasRange(body)
  {
    NoRangeInStrictBody(body);
  }

  lemma FramesFit(c: TraceConfig, body: string, seen: seq<int>)
    requires TraceFrames(c, body, seen).Ok?
    ensures Take(TraceFrames(c, body, seen).value, c.maxFrames) == TraceFrames(c, body, seen).value
  {
  }

  /** The answer of the trace ends the loop with the same letter. */
  lemma ReplayAnswer(cfg: Config, ds: Adapter, good: string -> bool, c: TraceConfig, st: State, raw: RawOutput,
                     done: nat, seenBefore: seq<int>, plan: seq<int>, summary: string)
    requires Replay(cfg, ds, good, c) && AtRound(cfg, ds, c, st, done, seenBefore, plan, summary)
    requires ParseStrictAction(raw).Some? && ParseStrictAction(raw).value.AnswerAction? && QualityTurn(ds, good, raw)
    ensures var letter := NormalizeAnswer(ParseStrictAction(raw).value.body, Labels(c.numChoices));
            var next := Step(cfg, ds, st, Some(raw));
            && letter.Some? && next.phase == Answered(letter.value) && next.invalid == 0 && next.calls == done + 1
            && next.log == st.log + [EntryOf(cfg, ds, st, raw)]
            && Agrees(EntryOf(cfg, ds, st, raw), TraceEntry(done + 1, st.seen, st.shown, None, summary, raw, letter))
  {
    hide ParseStrictAction, Decide, TraceShown;
    AnswerAgrees(ds.judge, TurnOf(cfg, ds, st), raw);
  }

  lemma RunGiven(cfg: Config, ds: Adapter, done: seq<RawOutput>, raw: RawOutput)
    requires Run(cfg, ds, Given(done)).phase.Running?
    ensures Run(cfg, ds, Given(done + [raw])) == Step(cfg, ds, Run(cfg, ds, Given(done)), Some(raw))
  {
    hide Step;
    assert Given(done + [raw]) == Given(done) + [Some(raw)];
    RunNext(cfg, ds, Given(done), Some(raw));
  }

  lemma AgreeMore(before: seq<LogEntry>, e: LogEntry, log: seq<LogEntry>, first: TraceEntry, more: seq<TraceEntry>)
    requires before + [e] <= log && Agrees(e, first) && AllAgree(log[|before| + 1..], more)
    ensures before <= log && AllAgree(log[|before|..], [first] + more)
  {
    hide Agrees;
    assert log[|before|] == e;
    assert log[|before|..] == [e] + log[|before| + 1..];
  }

  /** What a trace the converter takes starts with. */
  lemma FirstOfTrace(c: TraceConfig, round: nat, rest: seq<RawOutput>, seenBefore: seq<int>, plan: seq<int>,
                     summary: string)
    requires rest != [] && ConvertFrom(c, round, rest, seenBefore, plan, summary).Ok?
    ensures var entries := ConvertFrom(c, round, rest, seenBefore, plan, summary).value;
            var shown := TraceShown(c, plan, seenBefore);
            var seen, act := AppendNew(seenBefore, shown), ParseStrictAction(rest[0]);
            act.Some?
            && if |rest| == 1 then
                 act.value.AnswerAction?
                 && entries == [TraceEntry(round, seen, shown, None, summary, rest[0],
                                           NormalizeAnswer(act.value.body, Labels(c.numChoices)))]
               else
                 act.value.SelectAction? && TraceFrames(c, act.value.body, seen).Ok?
                 && var frames := TraceFrames(c, act.value.body, seen).value;
                    var more := ConvertFrom(c, round + 1, rest[1..], seen, frames, Strip(act.value.summary));
                    more.Ok?
                    && entries == [TraceEntry(round, seen, shown, Some(frames), summary, rest[0], None)] + more.value
  {
    hide ParseStrictAction, TraceFrames, TraceShown, NormalizeAnswer, Strip, AppendNew;
  }

  lemma {:induction false} ReplayFrom(cfg: Config, ds: Adapter, good: string -> bool, c: TraceConfig,
                                      done: seq<RawOutput>, rest: seq<RawOutput>, seenBefore: seq<int>, plan: seq<int>,
                                      summary: string)
    requires Replay(cfg, ds, good, c) && rest != [] && |done| + |rest| <= cfg.maxRounds && Quality(ds, good, rest)
    requires ConvertFrom(c, |done| + 1, rest, seenBefore, plan, summary).Ok?
    requires AtRound(cfg, ds, c, Run(cfg, ds, Given(done)), |done|, seenBefore, plan, summary)
    ensures var st := Run(cfg, ds, Given(done + rest));
            && Told(st, |done|, ConvertFrom(c, |done| + 1, rest, seenBefore, plan, summary))
            && st.invalid == 0 && st.calls == |done| + |rest| && Run(cfg, ds, Given(done)).log <= st.log
    decreases |rest|
  {
    hide Run, Step, ParseStrictAction, TraceFrames, TraceShown, NormalizeAnswer, Replay, QualityTurn, Agrees, Strip,
         AllAgree, ConvertFrom, EntryOf;
    var st, raw := Run(cfg, ds, Given(done)), rest[0];
    RunGiven(cfg, ds, done, raw);
    FirstOfTrace(c, |done| + 1, rest, seenBefore, plan, summary);
    var entries := ConvertFrom(c, |done| + 1, rest, seenBefore, plan, summary).value;
    var e := EntryOf(cfg, ds, st, raw);
    QualityTail(ds, good, rest);
    if |rest| == 1 {
      assert rest == [raw];
      ReplayAnswer(cfg, ds, good, c, st, raw, |done|, seenBefore, plan, summary);
      NothingToAgree();
      assert (st.log + [e])[|done| + 1..] == [] && entries == [entries[0]] + [];
      AgreeMore(st.log, e, st.log + [e], entries[0], []);
    } else {
      var a := ParseStrictAction(raw).value;
      var frames := TraceFrames(c, a.body, st.seen).value;
      ReplayMaxRounds(cfg, ds, good, c);
      ReplaySelect(cfg, ds, good, c, st, raw, |done|, seenBefore, plan, summary);
      assert done + [raw] + rest[1..] == done + rest;
      ReplayFrom(cfg, ds, good, c, done + [raw], rest[1..], st.seen, frames, Strip(a.summary));
      var more := ConvertFrom(c, |done| + 2, rest[1..], st.seen, frames, Strip(a.summary)).value;
      assert entries[|entries| - 1] == more[|more| - 1];
      AgreeMore(st.log, e, Run(cfg, ds, Given(done + rest)).log, entries[0], more);
    }
  }

  lemma NothingToAgree()
    ensures AllAgree([], [])
  {
  }

  lemma ReplayMaxRounds(cfg: Config, ds: Adapter, good: string -> bool, c: TraceConfig)
    requires Replay(cfg, ds, good, c)
    ensures c.maxRounds == cfg.maxRounds
  {
  }

  lemma QualityTail(ds: Adapter, good: string -> bool, rest: seq<RawOutput>)
    requires rest != [] && Quality(ds, good, rest)
    ensures Quality(ds, good, rest[1..]) && QualityTurn(ds, good, rest[0])
  {
  }

  /** Simulation: a trace the converter takes, with the quality the loop insists on, runs through the loop without one
  invalid turn, one model call for each of its outputs. In every round the loop shows the frames, has seen the frames
  and is given the summary that the converter recorded, and it ends with the answer that the converter read. */
  lemma Simulation(cfg: Config, ds: Adapter, good: string -> bool, c: TraceConfig, outs: seq<RawOutput>)
    requires Replay(cfg, ds, good, c) && Convert(c, outs).Ok? && Quality(ds, good, outs)
    ensures var st := Run(cfg, ds, Given(outs));
            st.invalid == 0 && st.calls == |outs| && Told(st, 0, Convert(c, outs))
  {
    hide Run, ConvertFrom, Replay, Quality, AllAgree;
    ReplayMaxRounds(cfg, ds, good, c);
    ReplayStart(cfg, ds, good, c);
    assert Given([]) == [];
    assert [] + outs == outs;
    ReplayFrom(cfg, ds, good, c, [], outs, [], SampleUniform(c.frameCount, c.maxFrames), c.initialSummary);
    assert Run(cfg, ds, Given(outs)).log[0..] == Run(cfg, ds, Given(outs)).log;
  }

  // ---------------------------------------------------------------- and what the loop replays, the converter takes

  /** No select body of the trace names a frame twice, which the converter refuses and the loop forgives. */
  ghost predicate NoRepeats(outs: seq<RawOutput>) {
    forall i :: 0 <= i < |outs| ==> NoRepeat(outs[i])
  }

  ghost predicate NoRepeat(raw: RawOutput) {
    match ParseStrictAction(raw)
    case Some(SelectAction(_, _, body)) => Distinct(ParseIntList(body))
    case _ => true
  }

  lemma InvalidOnlyGrows(cfg: Config, ds: Adapter, st: State, out: Option<RawOutput>)
    requires st.phase.Running?
    ensures var next := Step(cfg, ds, st, out);
            next.invalid >= st.invalid && st.calls <= next.calls <= st.calls + 1
  {
    hide Decide, ShownFrames, FallbackPlan;
  }

  lemma {:induction false} RunInvalidGrows(cfg: Config, ds: Adapter, outs: seq<Option<RawOutput>>, n: nat)
    requires n <= |outs|
    ensures Run(cfg, ds, outs).invalid >= Run(cfg, ds, outs[..n]).invalid
  {
    hide Step;
    if n == |outs| {
      assert outs[..n] == outs;
    } else {
      var shorter := outs[..|outs| - 1];
      assert shorter[..n] == outs[..n];
      RunInvalidGrows(cfg, ds, shorter, n);
      if Run(cfg, ds, shorter).phase.Running? {
        InvalidOnlyGrows(cfg, ds, Run(cfg, ds, shorter), outs[|outs| - 1]);
      }
    }
  }

  /** If the run has ended after part of its outputs, the rest changes nothing. */
  lemma RunOver(cfg: Config, ds: Adapter, done: seq<RawOutput>, rest: seq<RawOutput>)
    ensures !Run(cfg, ds, Given(done)).phase.Running? ==>
              Run(cfg, ds, Given(done + rest)) == Run(cfg, ds, Given(done))
    ensures Run(cfg, ds, Given(done + rest)).invalid >= Run(cfg, ds, Given(done)).invalid
  {
    hide Run;
    assert Given(done + rest)[..|done|] == Given(done);
    RunInvalidGrows(cfg, ds, Given(done + rest), |done|);
    if !Run(cfg, ds, Given(done)).phase.Running? {
      RunStays(cfg, ds, Given(done + rest), |done|);
    }
  }

  /** A run that ends in an answer after all the given outputs, without an invalid one. */
  ghost predicate CleanRun(cfg: Config, ds: Adapter, outs: seq<RawOutput>) {
    var st := Run(cfg, ds, Given(outs));
    st.phase.Answered? && st.invalid == 0 && st.calls == |outs|
  }

  /** An accepted select without candidates is the judgement of the frames its body names. */
  lemma JudgedSelect(j: Judge, t: Turn, raw: RawOutput)
    requires Decide(j, t, raw).SelectDecision? && t.candidates == []
    ensures var a := ParseStrictAction(raw);
            && a.Some? && a.value.SelectAction? && IsStrictSelectBody(a.value.body)
            && Decide(j, t, raw) == JudgeFrames(t, a.value.summary, Dedupe(ParseIntList(a.value.body)))
            && Decide(j, t, raw).summary == a.value.summary
  {
    hide ParseStrictAction, IsStrictSelectBody, ParseIntList, IsStrictAnswerBody;
  }

  /** What an accepted select says about its text and its frames. */
  lemma AcceptedIsConvertible(ds: Adapter, t: Turn, c: TraceConfig, raw: RawOutput)
    requires Decide(ds.judge, t, raw).SelectDecision?
    requires t.candidates == [] && t.frameCount == c.frameCount && t.maxFrames == c.maxFrames
    ensures var a := ParseStrictAction(raw);
            && a.Some? && a.value.SelectAction?
            && (NoRepeat(raw) ==>
                  TraceFrames(c, a.value.body, t.seen) == Ok(Decide(ds.judge, t, raw).frames))
            && Decide(ds.judge, t, raw).summary == a.value.summary
  {
    hide ParseStrictAction, IsStrictSelectBody, ParseIntList, Decide, JudgeFrames, Distinct;
    JudgedSelect(ds.judge, t, raw);
    var a := ParseStrictAction(raw).value;
    var frames := ParseIntList(a.body);
    if NoRepeat(raw) {
      DedupeDistinct(frames);
      JudgedFramesSound(t, a.summary, frames);
      assert forall i :: 0 <= i < |frames| ==> frames[i] in frames;
    }
  }

  lemma AcceptedAnswerShape(ds: Adapter, t: Turn, raw: RawOutput)
    requires Decide(ds.judge, t, raw).AnswerDecision?
    ensures var a := ParseStrictAction(raw);
            && a.Some? && a.value.AnswerAction?
            && ds.judge.normalize(a.value.body) == Some(Decide(ds.judge, t, raw).letter)
  {
    hide ParseStrictAction, IsStrictAnswerBody, IsStrictSelectBody, ParseIntList, Requested;
  }

  /** An accepted select takes the loop into the next round with its own frames and summary, whether or not the
  converter takes it. */
  lemma CleanSelect(cfg: Config, ds: Adapter, good: string -> bool, c: TraceConfig, st: State, raw: RawOutput,
                    done: nat, seenBefore: seq<int>, plan: seq<int>, summary: string)
    requires Replay(cfg, ds, good, c) && AtRound(cfg, ds, c, st, done, seenBefore, plan, summary) && !good("")
    requires done + 1 < cfg.maxRounds
    requires Decide(ds.judge, TurnOf(cfg, ds, st), raw).SelectDecision?
    ensures var a, next := ParseStrictAction(raw), Step(cfg, ds, st, Some(raw));
            var d := Decide(ds.judge, TurnOf(cfg, ds, st), raw);
            && a.Some? && a.value.SelectAction?
            && AtRound(cfg, ds, c, next, done + 1, st.seen, d.frames, Strip(a.value.summary))
            && next.log == st.log + [EntryOf(cfg, ds, st, raw)]
            && (NoRepeat(raw) ==>
                  TraceFrames(c, a.value.body, st.seen) == Ok(d.frames)
                  && Agrees(EntryOf(cfg, ds, st, raw),
                            TraceEntry(done + 1, st.seen, st.shown, Some(d.frames), summary, raw, None)))
  {
    hide ParseStrictAction, Decide, TraceFrames, Settle, ShownFrames, TraceShown, NoRepeat;
    var t := TurnOf(cfg, ds, st);
    AcceptedIsConvertible(ds, t, c, raw);
    AcceptedSelect(ds.judge, t, raw);
    ParsedSummaryStripped(raw);
    DistinctCard(st.seen);
    var after := Attempt(cfg, ds, st, raw);
    Entering(cfg, ds, after);
    SameShown(cfg, ds, good, c, after.plan, after.seen);
  }

  /** The answer of a clean run ends it, with the letter the converter reads. */
  lemma CleanAnswer(cfg: Config, ds: Adapter, good: string -> bool, c: TraceConfig, st: State, raw: RawOutput,
                    done: nat, seenBefore: seq<int>, plan: seq<int>, summary: string)
    requires Replay(cfg, ds, good, c) && AtRound(cfg, ds, c, st, done, seenBefore, plan, summary)
    requires Decide(ds.judge, TurnOf(cfg, ds, st), raw).AnswerDecision?
    ensures var a, next := ParseStrictAction(raw), Step(cfg, ds, st, Some(raw));
            var d := Decide(ds.judge, TurnOf(cfg, ds, st), raw);
            && a.Some? && a.value.AnswerAction?
            && NormalizeAnswer(a.value.body, Labels(c.numChoices)) == Some(d.letter)
            && next.phase == Answered(d.letter) && next.log == st.log + [EntryOf(cfg, ds, st, raw)]
            && next.invalid == st.invalid && next.calls == st.calls + 1
            && Agrees(EntryOf(cfg, ds, st, raw),
                      TraceEntry(done + 1, st.seen, st.shown, None, summary, raw, Some(d.letter)))
  {
    hide ParseStrictAction, Decide, TraceShown, NormalizeAnswer;
    AcceptedAnswerShape(ds, TurnOf(cfg, ds, st), raw);
  }

  lemma {:induction false} CleanFrom(cfg: Config, ds: Adapter, good: string -> bool, c: TraceConfig,
                                     done: seq<RawOutput>, rest: seq<RawOutput>, seenBefore: seq<int>, plan: seq<int>,
                                     summary: string)
    requires Replay(cfg, ds, good, c) && !good("") && rest != [] && |done| + |rest| <= cfg.maxRounds
    requires NoRepeats(rest) && CleanRun(cfg, ds, done + rest)
    requires AtRound(cfg, ds, c, Run(cfg, ds, Given(done)), |done|, seenBefore, plan, summary)
    ensures var st := Run(cfg, ds, Given(done + rest));
            Told(st, |done|, ConvertFrom(c, |done| + 1, rest, seenBefore, plan, summary))
            && Run(cfg, ds, Given(done)).log <= st.log
    decreases |rest|
  {
    hide Run, Step, ParseStrictAction, TraceFrames, TraceShown, NormalizeAnswer, Replay, Decide, NoRepeat, Strip,
         Agrees, AllAgree, EntryOf, ConvertFrom;
    var st, raw := Run(cfg, ds, Given(done)), rest[0];
    var d, e := Decide(ds.judge, TurnOf(cfg, ds, st), raw), EntryOf(cfg, ds, st, raw);
    RunGiven(cfg, ds, done, raw);
    assert done + [raw] + rest[1..] == done + rest;
    RunOver(cfg, ds, done + [raw], rest[1..]);
    StepByDecision(cfg, ds, st, raw);
    NoRepeatsTail(rest);
    if d.AnswerDecision? {
      CleanAnswer(cfg, ds, good, c, st, raw, |done|, seenBefore, plan, summary);
      assert |rest| == 1 && rest == [raw];
      ConvertAnswer(c, |done| + 1, raw, seenBefore, plan, summary);
      NothingToAgree();
      var last := TraceEntry(|done| + 1, st.seen, st.shown, None, summary, raw, Some(d.letter));
      assert (st.log + [e])[|done| + 1..] == [] && [last] + [] == [last];
      AgreeMore(st.log, e, st.log + [e], last, []);
    } else {
      assert d.SelectDecision?;
      assert |rest| == 1 ==> done + rest == done + [raw];
      CleanSelect(cfg, ds, good, c, st, raw, |done|, seenBefore, plan, summary);
      var a := ParseStrictAction(raw).value;
      CleanFrom(cfg, ds, good, c, done + [raw], rest[1..], st.seen, d.frames, Strip(a.summary));
      var more := ConvertFrom(c, |done| + 2, rest[1..], st.seen, d.frames, Strip(a.summary)).value;
      ConvertSelect(c, |done| + 1, rest, seenBefore, plan, summary, d.frames);
      var first := TraceEntry(|done| + 1, st.seen, st.shown, Some(d.frames), summary, raw, None);
      assert ([first] + more)[|more|] == more[|more| - 1];
      AgreeMore(st.log, e, Run(cfg, ds, Given(done + rest)).log, first, more);
    }
  }

  lemma ConvertAnswer(c: TraceConfig, round: nat, raw: RawOutput, seenBefore: seq<int>, plan: seq<int>, summary: string)
    requires ParseStrictAction(raw).Some? && ParseStrictAction(raw).value.AnswerAction?
    ensures var shown := TraceShown(c, plan, seenBefore);
            ConvertFrom(c, round, [raw], seenBefore, plan, summary)
            == Ok([TraceEntry(round, AppendNew(seenBefore, shown), shown, None, summary, raw,
                              NormalizeAnswer(ParseStrictAction(raw).value.body, Labels(c.numChoices)))])
  {
    hide ParseStrictAction, NormalizeAnswer, TraceShown, AppendNew;
  }

  lemma ConvertSelect(c: TraceConfig, round: nat, rest: seq<RawOutput>, seenBefore: seq<int>, plan: seq<int>,
                      summary: string, frames: seq<int>)
    requires |rest| > 1 && ParseStrictAction(rest[0]).Some? && ParseStrictAction(rest[0]).value.SelectAction?
    requires var seen := AppendNew(seenBefore, TraceShown(c, plan, seenBefore));
             var a := ParseStrictAction(rest[0]).value;
             TraceFrames(c, a.body, seen) == Ok(frames)
             && ConvertFrom(c, round + 1, rest[1..], seen, frames, Strip(a.summary)).Ok?
    ensures var shown := TraceShown(c, plan, seenBefore);
            var seen := AppendNew(seenBefore, shown);
            var a := ParseStrictAction(rest[0]).value;
            ConvertFrom(c, round, rest, seenBefore, plan, summary)
            == Ok([TraceEntry(round, seen, shown, Some(frames), summary, rest[0], None)]
                  + ConvertFrom(c, round + 1, rest[1..], seen, frames, Strip(a.summary)).value)
  {
    hide ParseStrictAction, TraceFrames, TraceShown, AppendNew, Strip;
  }

  lemma NoRepeatsTail(rest: seq<RawOutput>)
    requires rest != [] && NoRepeats(rest)
    ensures NoRepeats(rest[1..]) && NoRepeat(rest[0])
  {
  }

  lemma StepByDecision(cfg: Config, ds: Adapter, st: State, raw: RawOutput)
    requires st.phase.Running?
    ensures var d, next := Decide(ds.judge, TurnOf(cfg, ds, st), raw), Step(cfg, ds, st, Some(raw));
            && (d.InvalidDecision? ==> next.invalid > st.invalid)
            && (d.AnswerDecision? ==> !next.phase.Running?)
            && (d.SelectDecision? ==> !next.phase.Answered?)
            && next.calls == st.calls + 1
  {
    hide Decide, ShownFrames, FallbackPlan;
  }

  /** What the converter takes names no frame twice. */
  lemma {:induction false} ConvertedNoRepeats(c: TraceConfig, round: nat, rest: seq<RawOutput>, seenBefore: seq<int>,
                                              plan: seq<int>, summary: string)
    requires ConvertFrom(c, round, rest, seenBefore, plan, summary).Ok?
    ensures NoRepeats(rest)
    decreases |rest|
  {
    hide ParseStrictAction, TraceFrames, TraceShown, NormalizeAnswer, Strip, AppendNew, ConvertFrom;
    if rest != [] {
      FirstOfTrace(c, round, rest, seenBefore, plan, summary);
      var seen := AppendNew(seenBefore, TraceShown(c, plan, seenBefore));
      var a := ParseStrictAction(rest[0]).value;
      if |rest| > 1 {
        TakenFrames(c, a.body, seen);
        ConvertedNoRepeats(c, round + 1, rest[1..], seen, TraceFrames(c, a.body, seen).value, Strip(a.summary));
        assert forall i :: 1 <= i < |rest| ==> rest[i] == rest[1..][i - 1];
      }
    }
  }

  lemma TakenFrames(c: TraceConfig, body: string, seen: seq<int>)
    requires TraceFrames(c, body, seen).Ok?
    ensures Distinct(ParseIntList(body))
  {
    hide ParseIntList, IsStrictSelectBody;
    var parsed := ParseIntList(body);
    DistinctCard(Dedupe(parsed));
    assert Elems(Dedupe(parsed)) == Elems(parsed);
    CardDistinct(parsed);
  }

  lemma {:induction false} CardDistinct(s: seq<int>)
    ensures |Elems(s)| <= |s| && (|Elems(s)| == |s| ==> Distinct(s))
  {
    if s != [] {
      var t, x := s[..|s| - 1], s[|s| - 1];
      assert s == t + [x];
      CardDistinct(t);
      assert Elems(s) == Elems(t) + {x};
      if |Elems(s)| == |s| {
        assert x !in Elems(t);
      }
    }
  }

  /** What the converter finds wrong with a select body, in terms of the numbers in it; a body without fault is taken
  number by number. */
  lemma FramesRefused(c: TraceConfig, body: string, seen: seq<int>)
    ensures var (ns, r) := (ParseIntList(body), TraceFrames(c, body, seen));
            if !IsStrictSelectBody(body) then r == Err(BadBody)
            else if !Distinct(ns) then r == Err(RepeatedFrames)
            else if |ns| > c.maxFrames then r == Err(TooMany)
            else if SomeOutside(ns, 0, c.frameCount) then r == Err(OutOfRange)
            else if SomeSeen(ns, seen) then r == Err(AlreadySeen)
            else r == Ok(ns)
  {
    hide ParseIntList, IsStrictSelectBody, Dedupe, SomeOutside, SomeSeen;
    var ns := ParseIntList(body);
    if Distinct(ns) {
      DedupeDistinct(ns);
    } else {
      DistinctCard(Dedupe(ns));
      assert Elems(Dedupe(ns)) == Elems(ns);
      CardDistinct(ns);
    }
  }

  /** The fault of an output that each of the converter's errors speaks of. */
  ghost predicate Faulty(c: TraceConfig, raw: RawOutput, last: bool, e: TraceError) {
    match ParseStrictAction(raw)
    case None => e.NotAnAction?
    case Some(AnswerAction(_, _)) => e.AnswerNotLast? && !last
    case Some(SelectAction(_, _, body)) =>
      var ns := ParseIntList(body);
      if last then e.LastNotAnswer?
      else
        || (e.BadBody? && !IsStrictSelectBody(body)) || (e.RepeatedFrames? && !Distinct(ns))
        || (e.TooMany? && |ns| > c.maxFrames) || (e.OutOfRange? && SomeOutside(ns, 0, c.frameCount)) || e.AlreadySeen?
  }

  lemma {:induction false} FaultFound(c: TraceConfig, round: nat, rest: seq<RawOutput>, seenBefore: seq<int>,
                                      plan: seq<int>, summary: string) returns (i: nat)
    requires ConvertFrom(c, round, rest, seenBefore, plan, summary).Err?
    ensures var e := ConvertFrom(c, round, rest, seenBefore, plan, summary).error;
            i < |rest| && Faulty(c, rest[i], i + 1 == |rest|, e)
    decreases |rest|
  {
    hide ParseStrictAction, ParseIntList, IsStrictSelectBody, TraceFrames, TraceShown, Strip;
    i := 0;
    var seen := AppendNew(seenBefore, TraceShown(c, plan, seenBefore));
    match ParseStrictAction(rest[0]) {
      case Some(SelectAction(_, newSummary, body)) =>
        if |rest| > 1 {
          FramesRefused(c, body, seen);
          var frames := TraceFrames(c, body, seen);
          if frames.Ok? {
            var k := FaultFound(c, round + 1, rest[1..], seen, frames.value, Strip(newSummary));
            i := k + 1;
          }
        }
      case _ =>
    }
  }

  /** Every error of the converter speaks of a fault that one of the outputs has. */
  lemma ErrorsAreTrue(c: TraceConfig, outputs: seq<RawOutput>)
    requires Convert(c, outputs).Err?
    ensures var e := Convert(c, outputs).error;
            if !(1 <= |outputs| <= c.maxRounds) then e == WrongLength
            else exists i :: 0 <= i < |outputs| && Faulty(c, outputs[i], i + 1 == |outputs|, e)
  {
    hide ConvertFrom, Faulty, SampleUniform;
    if 1 <= |outputs| <= c.maxRounds {
      var i := FaultFound(c, 1, outputs, [], SampleUniform(c.frameCount, c.maxFrames), c.initialSummary);
    }
  }

  /** The converse: of the sequences of outputs that the loop plays through without an invalid turn, the converter
  takes exactly those in which no select names a frame twice. The trace then agrees with the log of the run line by
  line, and has its answer. */
  lemma ConverseSimulation(cfg: Config, ds: Adapter, good: string -> bool, c: TraceConfig, outs: seq<RawOutput>)
    requires Replay(cfg, ds, good, c) && !good("") && CleanRun(cfg, ds, outs)
    ensures Convert(c, outs).Ok? <==> NoRepeats(outs)
    ensures NoRepeats(outs) ==> Told(Run(cfg, ds, Given(outs)), 0, Convert(c, outs))
  {
    hide Run, ConvertFrom, Replay, NoRepeats;
    ReplayMaxRounds(cfg, ds, good, c);
    RunPaced(cfg, ds, Given(outs));
    CleanWithinRounds(cfg, ds, outs);
    ReplayStart(cfg, ds, good, c);
    assert Given([]) == [];
    assert [] + outs == outs;
    var init := SampleUniform(c.frameCount, c.maxFrames);
    if NoRepeats(outs) {
      CleanFrom(cfg, ds, good, c, [], outs, [], init, c.initialSummary);
    }
    if Convert(c, outs).Ok? {
      ConvertedNoRepeats(c, 1, outs, [], init, c.initialSummary);
    }
  }

  /** The output that asks for one frame twice. */
  function AskTwice(summary: string, frame: nat): RawOutput {
    RenderAction(SelectAction("", summary, RenderFrames([frame, frame])))
  }

  lemma TwiceForgiven(j: Judge, t: Turn, summary: string, frame: nat)
    requires GoodPlan(t, [frame]) && t.candidates == [] && !t.requireAnswer
    requires var s := Strip(summary); j.summaryValid(s, |Elems(t.seen)|) && !j.summaryStale(s, |Elems(t.seen)|)
    requires forall b :: IsStrictSelectBody(b) ==> !j.rangeSyntax(b)
    ensures Decide(j, t, AskTwice(summary, frame)) == SelectDecision(Strip(summary), [frame])
  {
    hide ParseStrictAction, IsStrictSelectBody, ParseIntList, RenderFrames, RenderAction;
    var body := RenderFrames([frame, frame]);
    DecideRendered(j, t, summary, body);
    FramesRoundTrip([frame, frame]);
    TwiceOnce(frame);
    GoodFramesJudged(t, Strip(summary), [frame]);
  }

  lemma TwiceOnce(x: int)
    ensures Dedupe([x, x]) == [x]
  {
    assert [x, x][..1] == [x] && [x][..0] == [];
    assert AppendNew([], [x]) == [x];
  }

  lemma TwiceRefused(c: TraceConfig, summary: string, frame: nat, seen: seq<int>)
    ensures var a := ParseStrictAction(AskTwice(summary, frame));
            a.Some? && a.value.SelectAction? && TraceFrames(c, a.value.body, seen) == Err(RepeatedFrames)
  {
    hide IsStrictSelectBody, ParseIntList, RenderFrames;
    var body := RenderFrames([frame, frame]);
    ParseRendered(SelectAction("", summary, body));
    FramesRoundTrip([frame, frame]);
    TwiceOnce(frame);
  }

  /** A run that the converter refuses: one select that names a new frame twice, then an answer. */
  lemma RepeatingTrace(cfg: Config, ds: Adapter, good: string -> bool, c: TraceConfig, summary: string, frame: nat)
    requires Replay(cfg, ds, good, c) && !good("") && cfg.maxRounds >= 2 && cfg.maxFrames >= 1
    requires good(Strip(summary)) && forall n: nat :: !ds.judge.summaryStale(Strip(summary), n)
    requires frame < ds.frameCount && frame !in SampleUniform(ds.frameCount, cfg.maxFrames)
    ensures var outs := [AskTwice(summary, frame), RenderAction(AnswerAction("", ['A']))];
            CleanRun(cfg, ds, outs) && Convert(c, outs) == Err(RepeatedFrames)
  {
    hide Run, Step, Decide, SampleUniform, AskTwice, RenderAction, ParseStrictAction, TraceFrames, TraceShown;
    var ask, answer := AskTwice(summary, frame), RenderAction(AnswerAction("", ['A']));
    var init := SampleUniform(ds.frameCount, cfg.maxFrames);
    ReplayStart(cfg, ds, good, c);
    assert Given([]) == [] && [] + [ask] == [ask] && [ask] + [answer] == [ask, answer];
    var st := Run(cfg, ds, []);
    FirstSeen(cfg, ds, good, c);
    forall b | IsStrictSelectBody(b) ensures !ds.judge.rangeSyntax(b) {
      NoRangeInStrictBody(b);
    }
    TwiceForgiven(ds.judge, TurnOf(cfg, ds, st), summary, frame);
    CleanSelect(cfg, ds, good, c, st, ask, 0, [], init, c.initialSummary);
    RunGiven(cfg, ds, [], ask);
    var next := Step(cfg, ds, st, Some(ask));
    LabelsNormalize(ds);
    AnswerAccepted(ds.judge, TurnOf(cfg, ds, next), "", 'A');
    CleanAnswer(cfg, ds, good, c, next, answer, 1, st.seen, [frame], Strip(ParseStrictAction(ask).value.summary));
    RunGiven(cfg, ds, [ask], answer);
    TwiceRefused(c, summary, frame, AppendNew([], TraceShown(c, init, [])));
    FirstRefused(c, ask, answer);
  }

  lemma FirstSeen(cfg: Config, ds: Adapter, good: string -> bool, c: TraceConfig)
    requires Replay(cfg, ds, good, c) && cfg.maxRounds >= 1 && cfg.maxFrames >= 1
    ensures forall x :: x in Run(cfg, ds, []).seen <==> x in SampleUniform(ds.frameCount, cfg.maxFrames)
  {
    hide SampleUniform;
    FirstRound(cfg, ds, good, []);
  }

  lemma FirstRefused(c: TraceConfig, ask: RawOutput, answer: RawOutput)
    requires c.maxRounds >= 2
    requires var a := ParseStrictAction(ask);
             var seen := AppendNew([], TraceShown(c, SampleUniform(c.frameCount, c.maxFrames), []));
             a.Some? && a.value.SelectAction? && TraceFrames(c, a.value.body, seen) == Err(RepeatedFrames)
    ensures Convert(c, [ask, answer]) == Err(RepeatedFrames)
  {
    hide ParseStrictAction, TraceFrames, TraceShown, SampleUniform, AppendNew;
  }

  /** Without invalid turns there is one call a round. */
  lemma CleanWithinRounds(cfg: Config, ds: Adapter, outs: seq<RawOutput>)
    requires CleanRun(cfg, ds, outs)
    ensures 1 <= |outs| <= cfg.maxRounds
  {
    hide Run, Count, Charged;
    RunPaced(cfg, ds, Given(outs));
    RunBalanced(cfg, ds, Given(outs));
    var st := Run(cfg, ds, Given(outs));
    assert st.calls == st.effective + 1;
    assert st.calls <= st.round;
  }
}
