/** The NExT-QA evaluation driver: a run over many samples, its log, and picking it up again after a crash. */
module Resume {
  import opened Py
  import opened Protocol
  import opened Policy
  import opened Engine

  datatype Sample = Sample(id: string, numChoices: nat, answerIdx: int)

  /** The adapter and the model outputs of each sample: what a sample comes to depends on the sample alone. */
  datatype World = World(adapter: Sample -> Adapter, script: Sample -> (nat -> Option<RawOutput>))

  function FinalOf(cfg: Config, w: World, s: Sample): State { Final(cfg, w.adapter(s), w.script(s)) }

  /** A line of the log: one turn of a sample, text that is no JSON object, or bytes that are no UTF-8 text at all. */
  datatype Line =
    | Garbage
    | Undecodable
    | Entry(sampleId: string, numChoices: nat, groundTruth: int, frameCount: int, useIds: bool, turn: LogEntry)

  function LineOf(cfg: Config, w: World, s: Sample, e: LogEntry): Line {
    Entry(s.id, s.numChoices, s.answerIdx, w.adapter(s).frameCount, cfg.useIds, e)
  }

  function LinesFrom(cfg: Config, w: World, s: Sample, log: seq<LogEntry>): (r: seq<Line>)
    ensures |r| == |log| && forall i :: 0 <= i < |log| ==> r[i] == LineOf(cfg, w, s, log[i])
  {
    seq(|log|, i requires 0 <= i < |log| => LineOf(cfg, w, s, log[i]))
  }

  function LetterIndex(letter: char): int { letter as int - 'A' as int }

  /** `is_correct` */
  predicate IsCorrect(s: Sample, letter: char) {
    0 <= s.answerIdx < s.numChoices && LetterIndex(letter) == s.answerIdx
  }

  // ---------------------------------------------------------------- reading the progress back

  datatype Progress = Progress(done: set<string>, correct: int, totalRounds: int)

  /** The policy's default judgement of a turn, for any judgement of summaries and ranges. */
  function ReplayJudge(j: Judge, numChoices: int): Judge {
    Judge((s: string) => NormalizeAnswer(s, Labels(numChoices)), j.summaryValid, j.summaryStale, j.rangeSyntax)
  }

  /** The logged turn as it is judged again: what the log does not record takes its default. */
  function ReplayTurn(line: Line, maxRounds: int): Turn
    requires line.Entry?
  {
    Turn(if line.numChoices > 0 then line.numChoices else 5, line.turn.seen, Max(1, line.frameCount), 1_000_000_000,
         line.turn.round, Some(maxRounds), false, false, 0, Max(0, line.turn.round - 1), line.turn.candidates,
         line.useIds, false)
  }

  /** `_accepted_answer_letter` */
  function Replayed(j: Judge, line: Line, maxRounds: int): Option<char>
    requires line.Entry?
  {
    if line.turn.decision.InvalidDecision? then None
    else
      var t := ReplayTurn(line, maxRounds);
      var d := Decide(ReplayJudge(j, t.numChoices), t, line.turn.raw);
      if !d.AnswerDecision? then None
      else if line.turn.decision.AnswerDecision?
              && NormalizeAnswer([line.turn.decision.letter], Labels(t.numChoices)) != Some(d.letter) then None
      else Some(d.letter)
  }

  function Advance(j: Judge, allowed: set<string>, maxRounds: int, p: Progress, line: Line): Progress {
    if !line.Entry? || line.sampleId == "" || line.sampleId in p.done then p
    else if allowed != {} && line.sampleId !in allowed then p
    else
      match Replayed(j, line, maxRounds)
      case None => p
      case Some(letter) =>
        Progress(p.done + {line.sampleId}, p.correct + (if line.groundTruth == LetterIndex(letter) then 1 else 0),
                 p.totalRounds + Min(line.turn.round, maxRounds))
  }

  function Load(j: Judge, allowed: set<string>, maxRounds: int, lines: seq<Line>): Progress {
    if lines == [] then Progress({}, 0, 0)
    else Advance(j, allowed, maxRounds, Load(j, allowed, maxRounds, lines[..|lines| - 1]), lines[|lines| - 1])
  }

  /** The file can be read to its end as text. */
  predicate Readable(lines: seq<Line>) { forall i :: 0 <= i < |lines| ==> !lines[i].Undecodable? }

  /** What reading the whole log gives: the decoding error of a single line spoils it all. */
  function ReadBack(j: Judge, allowed: set<string>, maxRounds: int, lines: seq<Line>): Option<Progress> {
    if Readable(lines) then Some(Load(j, allowed, maxRounds, lines)) else None
  }

  /** `load_progress_from_log`. The decoding error is raised by the iteration over the file, outside the handler for
  lines that are no JSON. */
  method LoadProgressFromLog(j: Judge, lines: seq<Line>, maxRounds: int, sampleIds: set<string>)
    returns (ok: bool, completed: int, correct: int, totalRounds: int, completedIds: set<string>)
    ensures ok <==> Readable(lines)
    ensures ok ==>
              ReadBack(j, sampleIds - {""}, maxRounds, lines) == Some(Progress(completedIds, correct, totalRounds))
              && completed == |completedIds|
  {
    hide Replayed;
    var allowed := sampleIds - {""};
    ok, completed, completedIds, correct, totalRounds := true, 0, {}, 0, 0;
    for k := 0 to |lines|
      invariant Readable(lines[..k])
      invariant Progress(completedIds, correct, totalRounds) == Load(j, allowed, maxRounds, lines[..k])
    {
      var line := lines[k];
      assert lines[..k + 1][..k] == lines[..k];
      if line.Undecodable? {
        return false, 0, 0, 0, {};
      }
      if line.Garbage? {
        continue;
      }
      if line.sampleId == "" || line.sampleId in completedIds {
        continue;
      }
      if allowed != {} && line.sampleId !in allowed {
        continue;
      }
      var letter := Replayed(j, line, maxRounds);
      if letter == None {
        continue;
      }
      completedIds := completedIds + {line.sampleId};
      if line.groundTruth == LetterIndex(letter.value) {
        correct := correct + 1;
      }
      totalRounds := totalRounds + Min(line.turn.round, maxRounds);
    }
    assert lines[..|lines|] == lines;
    completed := |completedIds|;
  }

  // ---------------------------------------------------------------- a logged turn is accepted again, and only then

  /** The adapters normalise answers the way the dataset does, and offer as many choices as the sample has. */
  ghost predicate Answers(w: World, s: Sample) {
    && w.adapter(s).numChoices == s.numChoices
    && forall text :: w.adapter(s).judge.normalize(text) == NormalizeAnswer(text, Labels(s.numChoices))
  }

  /** The decision of a logged turn is the policy's, at some turn of the sample. */
  ghost predicate Logged(ds: Adapter, e: LogEntry) {
    exists t: Turn :: t.numChoices == ds.numChoices && e.decision == Decide(ds.judge, t, e.raw)
  }

  lemma AcceptedAnswer(j: Judge, t: Turn, raw: RawOutput)
    requires Decide(j, t, raw).AnswerDecision?
    ensures var a := ParseStrictAction(raw);
            && a.Some? && a.value.AnswerAction?
            && IsStrictAnswerBody(a.value.body, Labels(t.numChoices))
            && j.normalize(a.value.body) == Some(Decide(j, t, raw).letter)
  {
    hide ParseStrictAction, IsStrictAnswerBody, IsStrictSelectBody, ParseIntList, Requested;
  }

  lemma AcceptedSelectShape(j: Judge, t: Turn, raw: RawOutput)
    requires Decide(j, t, raw).SelectDecision?
    ensures ParseStrictAction(raw).Some? && ParseStrictAction(raw).value.SelectAction?
  {
    hide ParseStrictAction, IsStrictAnswerBody, IsStrictSelectBody, ParseIntList, Requested;
  }

  lemma SelectIsNoAnswer(j: Judge, t: Turn, raw: RawOutput)
    requires ParseStrictAction(raw).Some? && ParseStrictAction(raw).value.SelectAction?
    ensures !Decide(j, t, raw).AnswerDecision?
  {
    hide ParseStrictAction, IsStrictAnswerBody, IsStrictSelectBody, ParseIntList, Requested;
  }

  lemma AnswerIsAccepted(j: Judge, t: Turn, raw: RawOutput, letter: char)
    requires var a := ParseStrictAction(raw);
             && a.Some? && a.value.AnswerAction?
             && IsStrictAnswerBody(a.value.body, Labels(t.numChoices)) && j.normalize(a.value.body) == Some(letter)
    requires t.minSelectRounds <= t.selectRoundsSoFar && !t.answerOnlyFinalRound
    ensures Decide(j, t, raw) == AnswerDecision(letter)
  {
    hide ParseStrictAction, IsStrictAnswerBody;
  }

  /** Replaying a logged turn accepts an answer exactly when the loop accepted it, and reads the same letter, although
  the log records neither the frame budget nor the rules for early answers. */
  lemma ReplayAgrees(cfg: Config, w: World, s: Sample, j: Judge, e: LogEntry)
    requires Answers(w, s) && Logged(w.adapter(s), e)
    ensures Replayed(j, LineOf(cfg, w, s, e), cfg.maxRounds)
            == if e.decision.AnswerDecision? then Some(e.decision.letter) else None
  {
    hide Decide, NormalizeAnswer, Labels;
    var ds, line := w.adapter(s), LineOf(cfg, w, s, e);
    var t: Turn :| t.numChoices == ds.numChoices && e.decision == Decide(ds.judge, t, e.raw);
    var rt := ReplayTurn(line, cfg.maxRounds);
    var rj := ReplayJudge(j, rt.numChoices);
    SameLabels(s.numChoices);
    if e.decision.AnswerDecision? {
      AcceptedAnswer(ds.judge, t, e.raw);
      var body := ParseStrictAction(e.raw).value.body;
      AnswerIsAccepted(rj, rt, e.raw, e.decision.letter);
      LetterAgain(body, Labels(s.numChoices), e.decision.letter);
    } else if e.decision.SelectDecision? {
      AcceptedSelectShape(ds.judge, t, e.raw);
      SelectIsNoAnswer(rj, rt, e.raw);
    }
  }

  /** No choices at all stand for five, in the labels as in the log reader. */
  lemma SameLabels(numChoices: nat)
    ensures Labels(if numChoices > 0 then numChoices else 5) == Labels(numChoices)
  {
    if numChoices == 0 {
      assert OPTION_LABELS[..5] == "ABCDE";
    }
  }

  lemma LetterAgain(body: string, labels: string, letter: char)
    requires NormalizeAnswer(body, labels) == Some(letter) && forall c :: c in labels ==> IsUpper(c)
    ensures NormalizeAnswer([letter], labels) == Some(letter)
  {
    LabelIsStrict(letter, labels);
  }

  // ---------------------------------------------------------------- what a run leaves in its log

  /** Every logged decision is the policy's; the only accepted answer is the last line, if the run was answered at all.
  */
  ghost predicate LogShape(ds: Adapter, st: State) {
    && (forall i :: 0 <= i < |st.log| ==> Logged(ds, st.log[i]))
    && (forall i :: 0 <= i < |st.log| && st.log[i].decision.AnswerDecision? ==>
          st.phase == Answered(st.log[i].decision.letter) && st.log[i].round == st.round)
    && (st.phase.Answered? ==> exists i :: 0 <= i < |st.log| && st.log[i].decision.AnswerDecision?)
  }

  lemma LogShapeStep(cfg: Config, ds: Adapter, st: State, out: Option<RawOutput>)
    requires st.phase.Running? && LogShape(ds, st)
    ensures LogShape(ds, Step(cfg, ds, st, out))
  {
    hide Decide, ShownFrames, FallbackPlan, ResolutionOf;
    if out.Some? {
      var e, next := EntryOf(cfg, ds, st, out.value), Step(cfg, ds, st, out);
      assert next.log == st.log + [e];
      assert Logged(ds, e) by {
        assert TurnOf(cfg, ds, st).numChoices == ds.numChoices;
      }
      if e.decision.AnswerDecision? {
        assert next.log[|st.log|].decision.AnswerDecision?;
      }
    }
  }

  lemma {:induction false} RunLogShape(cfg: Config, ds: Adapter, outs: seq<Option<RawOutput>>)
    ensures LogShape(ds, Run(cfg, ds, outs))
  {
    hide Step, LogShape;
    if outs == [] {
      EmptyLogShape(cfg, ds);
    } else {
      var st := Run(cfg, ds, outs[..|outs| - 1]);
      RunLogShape(cfg, ds, outs[..|outs| - 1]);
      if st.phase.Running? {
        LogShapeStep(cfg, ds, st, outs[|outs| - 1]);
      }
    }
  }

  lemma EmptyLogShape(cfg: Config, ds: Adapter)
    ensures LogShape(ds, Settle(cfg, ds, Initial(ds)))
  {
  }

  // ---------------------------------------------------------------- sums over samples

  ghost predicate DistinctIds(samples: seq<Sample>) {
    forall i, j :: 0 <= i < j < |samples| ==> samples[i].id != samples[j].id
  }

  function Ids(samples: seq<Sample>): set<string> { set s | s in samples :: s.id }

  /** `[sample for sample in samples if sample.sample_id not in done]` */
  function Rest(samples: seq<Sample>, done: set<string>): (r: seq<Sample>)
    ensures forall s :: s in r ==> s in samples
  {
    if samples == [] then []
    else if samples[0].id in done then Rest(samples[1..], done)
    else [samples[0]] + Rest(samples[1..], done)
  }

  function Sum(samples: seq<Sample>, f: Sample -> int): int {
    if samples == [] then 0 else f(samples[0]) + Sum(samples[1..], f)
  }

  /** The sum over the samples that are done. */
  function SumDone(samples: seq<Sample>, done: set<string>, f: Sample -> int): int {
    if samples == [] then 0
    else (if samples[0].id in done then f(samples[0]) else 0) + SumDone(samples[1..], done, f)
  }

  lemma {:induction false} SumSplits(samples: seq<Sample>, done: set<string>, f: Sample -> int)
    ensures SumDone(samples, done, f) + Sum(Rest(samples, done), f) == Sum(samples, f)
  {
    if samples != [] {
      SumSplits(samples[1..], done, f);
      if samples[0].id !in done {
        assert Rest(samples, done)[1..] == Rest(samples[1..], done);
      }
    }
  }

  lemma {:induction false} SumWithout(samples: seq<Sample>, done: set<string>, id: string, f: Sample -> int)
    requires forall i :: 0 <= i < |samples| ==> samples[i].id != id
    ensures SumDone(samples, done + {id}, f) == SumDone(samples, done, f)
  {
    if samples != [] {
      SumWithout(samples[1..], done, id, f);
    }
  }

  /** One more sample done adds its own value to the sum, as no other sample has its id. */
  lemma {:induction false} SumWith(samples: seq<Sample>, done: set<string>, k: nat, f: Sample -> int)
    requires DistinctIds(samples) && k < |samples| && samples[k].id !in done
    ensures SumDone(samples, done + {samples[k].id}, f) == SumDone(samples, done, f) + f(samples[k])
  {
    var id := samples[k].id;
    if k == 0 {
      SumWithout(samples[1..], done, id, f);
    } else {
      assert samples[1..][k - 1] == samples[k];
      assert samples[0].id != id;
      SumWith(samples[1..], done, k - 1, f);
    }
  }

  lemma {:induction false} SumNone(samples: seq<Sample>, f: Sample -> int)
    ensures SumDone(samples, {}, f) == 0
  {
    if samples != [] {
      SumNone(samples[1..], f);
    }
  }

  lemma {:induction false} SumOnes(samples: seq<Sample>)
    ensures Sum(samples, (s: Sample) => 1) == |samples|
  {
    if samples != [] {
      SumOnes(samples[1..]);
    }
  }

  // ---------------------------------------------------------------- the value of a sample

  function CorrectOf(cfg: Config, w: World): Sample -> int {
    (s: Sample) => var st := FinalOf(cfg, w, s);
                   if st.phase.Answered? && IsCorrect(s, st.phase.letter) then 1 else 0
  }

  function RoundsOf(cfg: Config, w: World): Sample -> int {
    (s: Sample) => var st := FinalOf(cfg, w, s); if st.phase.Raised? then cfg.maxRounds else st.round
  }

  /** Every line that counts was logged by the run of one of the samples. */
  ghost predicate Genuine(cfg: Config, w: World, samples: seq<Sample>, line: Line) {
    line.Entry? && line.sampleId != "" && (Ids(samples) - {""} == {} || line.sampleId in Ids(samples) - {""}) ==>
      exists k, i :: 0 <= k < |samples| && 0 <= i < |FinalOf(cfg, w, samples[k]).log|
                     && line == LineOf(cfg, w, samples[k], FinalOf(cfg, w, samples[k]).log[i])
  }

  ghost predicate AllGenuine(cfg: Config, w: World, samples: seq<Sample>, lines: seq<Line>) {
    forall i :: 0 <= i < |lines| ==> Genuine(cfg, w, samples, lines[i])
  }

  /** The samples are fit for evaluation: distinct ids, the dataset's own reading of answers, and choices, at least for
  an answer that could be one of the five that the log reader takes for granted. */
  ghost predicate Fit(w: World, samples: seq<Sample>) {
    DistinctIds(samples)
    && forall k :: 0 <= k < |samples| ==>
         (samples[k].numChoices >= 1 || !(0 <= samples[k].answerIdx < 5)) && Answers(w, samples[k])
  }

  /** What has been read back is what the samples read back come to. */
  ghost predicate Faithful(cfg: Config, w: World, samples: seq<Sample>, p: Progress) {
    && |p.done| == SumDone(samples, p.done, (s: Sample) => 1)
    && p.correct == SumDone(samples, p.done, CorrectOf(cfg, w))
    && p.totalRounds == SumDone(samples, p.done, RoundsOf(cfg, w))
  }

  lemma LabelIndex(numChoices: nat, c: char)
    requires c in Labels(numChoices)
    ensures 0 <= LetterIndex(c) < if numChoices > 0 then numChoices else 5
  {
    var labels := OPTION_LABELS;
    assert |labels| == 26;
    assert forall i :: 0 <= i < |labels| ==> LetterIndex(labels[i]) == i;
    var taken := Take(labels, numChoices);
    assert forall i :: 0 <= i < |taken| ==> taken[i] == labels[i];
  }

  /** A genuine line that is taken for an answer carries the value of its sample. */
  lemma LineValue(cfg: Config, w: World, samples: seq<Sample>, j: Judge, k: nat, i: nat)
    requires Fit(w, samples) && k < |samples| && i < |FinalOf(cfg, w, samples[k]).log|
    ensures var s := samples[k];
            var line := LineOf(cfg, w, s, FinalOf(cfg, w, s).log[i]);
            var letter := Replayed(j, line, cfg.maxRounds);
            letter.Some? ==>
              && (if line.groundTruth == LetterIndex(letter.value) then 1 else 0) == CorrectOf(cfg, w)(s)
              && Min(line.turn.round, cfg.maxRounds) == RoundsOf(cfg, w)(s)
  {
    hide Replayed, Final, Labels, LogShape, Decide;
    var s := samples[k];
    var e := FinalOf(cfg, w, s).log[i];
    FinalShape(cfg, w, s, i);
    ReplayAgrees(cfg, w, s, j, e);
    if e.decision.AnswerDecision? {
      LabelIndex(s.numChoices, e.decision.letter);
    }
  }

  /** Reading one genuine line adds one sample's value, or nothing. */
  lemma AdvanceFaithful(cfg: Config, w: World, samples: seq<Sample>, j: Judge, p: Progress, line: Line)
    requires Fit(w, samples) && Genuine(cfg, w, samples, line) && Faithful(cfg, w, samples, p)
    ensures Faithful(cfg, w, samples, Advance(j, Ids(samples) - {""}, cfg.maxRounds, p, line))
  {
    hide Replayed, FinalOf, CorrectOf, RoundsOf, Faithful;
    var allowed := Ids(samples) - {""};
    if line.Entry? && line.sampleId != "" && line.sampleId !in p.done && (allowed == {} || line.sampleId in allowed) {
      var k, i :| 0 <= k < |samples| && 0 <= i < |FinalOf(cfg, w, samples[k]).log|
                  && line == LineOf(cfg, w, samples[k], FinalOf(cfg, w, samples[k]).log[i]);
      LineValue(cfg, w, samples, j, k, i);
      SampleAdded(cfg, w, samples, p, k);
    }
  }

  lemma SampleAdded(cfg: Config, w: World, samples: seq<Sample>, p: Progress, k: nat)
    requires DistinctIds(samples) && k < |samples| && samples[k].id !in p.done && Faithful(cfg, w, samples, p)
    ensures Faithful(cfg, w, samples,
                     Progress(p.done + {samples[k].id}, p.correct + CorrectOf(cfg, w)(samples[k]),
                              p.totalRounds + RoundsOf(cfg, w)(samples[k])))
  {
    hide CorrectOf, RoundsOf;
    SumWith(samples, p.done, k, (s: Sample) => 1);
    SumWith(samples, p.done, k, CorrectOf(cfg, w));
    SumWith(samples, p.done, k, RoundsOf(cfg, w));
  }

  lemma FinalShape(cfg: Config, w: World, s: Sample, i: nat)
    requires i < |FinalOf(cfg, w, s).log| && Answers(w, s)
    ensures var st := FinalOf(cfg, w, s);
            && Logged(w.adapter(s), st.log[i]) && st.round <= Max(0, cfg.maxRounds)
            && (st.log[i].decision.AnswerDecision? ==>
                  st.phase == Answered(st.log[i].decision.letter) && st.log[i].round == st.round <= cfg.maxRounds
                  && st.log[i].decision.letter in Labels(s.numChoices))
  {
    hide Run, Budget, Decide, NormalizeAnswer, Labels;
    var ds, outs := w.adapter(s), Script(w.script(s), Budget(cfg));
    RunLogShape(cfg, ds, outs);
    RunPaced(cfg, ds, outs);
    var e := Run(cfg, ds, outs).log[i];
    if e.decision.AnswerDecision? {
      var t: Turn :| t.numChoices == ds.numChoices && e.decision == Decide(ds.judge, t, e.raw);
      AcceptedAnswer(ds.judge, t, e.raw);
    }
  }

  lemma {:induction false} LoadFaithful(cfg: Config, w: World, samples: seq<Sample>, j: Judge, lines: seq<Line>)
    requires Fit(w, samples) && AllGenuine(cfg, w, samples, lines)
    ensures Faithful(cfg, w, samples, Load(j, Ids(samples) - {""}, cfg.maxRounds, lines))
  {
    hide Advance, Faithful, Fit;
    if lines == [] {
      NothingFaithful(cfg, w, samples);
    } else {
      LoadFaithful(cfg, w, samples, j, lines[..|lines| - 1]);
      AdvanceFaithful(cfg, w, samples, j, Load(j, Ids(samples) - {""}, cfg.maxRounds, lines[..|lines| - 1]),
                      lines[|lines| - 1]);
    }
  }

  lemma NothingFaithful(cfg: Config, w: World, samples: seq<Sample>)
    ensures Faithful(cfg, w, samples, Progress({}, 0, 0))
  {
    SumNone(samples, (s: Sample) => 1);
    SumNone(samples, CorrectOf(cfg, w));
    SumNone(samples, RoundsOf(cfg, w));
  }

  // ---------------------------------------------------------------- the driver

  /** The lines that the runs of some samples write, one run after another. */
  function AllLines(cfg: Config, w: World, samples: seq<Sample>): seq<Line> {
    if samples == [] then []
    else
      var s := samples[|samples| - 1];
      AllLines(cfg, w, samples[..|samples| - 1]) + LinesFrom(cfg, w, s, FinalOf(cfg, w, s).log)
  }

  /** The logs of some samples, in their order. */
  function LogsOf(cfg: Config, w: World, samples: seq<Sample>): (r: seq<seq<Line>>)
    ensures |r| == |samples|
    ensures forall i :: 0 <= i < |r| ==> r[i] == LinesFrom(cfg, w, samples[i], FinalOf(cfg, w, samples[i]).log)
  {
    seq(|samples|, i requires 0 <= i < |samples| => LinesFrom(cfg, w, samples[i], FinalOf(cfg, w, samples[i]).log))
  }

  lemma {:induction false} LinesInOrder(cfg: Config, w: World, samples: seq<Sample>)
    ensures AllLines(cfg, w, samples) == Flat(LogsOf(cfg, w, samples))
  {
    hide FinalOf, Flat, LinesFrom, LogsOf;
    var logs := LogsOf(cfg, w, samples);
    if samples == [] {
      FlatNothing<Line>();
      assert logs == [];
    } else {
      var n := |samples| - 1;
      LinesInOrder(cfg, w, samples[..n]);
      assert logs[..n] == LogsOf(cfg, w, samples[..n]);
      assert logs == logs[..n] + [logs[n]];
      FlatSnoc(logs[..n], logs[n]);
    }
  }

  function SumTo(samples: seq<Sample>, f: Sample -> int): int {
    if samples == [] then 0 else SumTo(samples[..|samples| - 1], f) + f(samples[|samples| - 1])
  }

  lemma {:induction false} SumBothWays(samples: seq<Sample>, f: Sample -> int)
    ensures SumTo(samples, f) == Sum(samples, f)
  {
    if |samples| == 1 {
      assert samples[..0] == [] && samples[1..] == [];
    } else if |samples| > 1 {
      var mid := samples[1..|samples| - 1];
      assert samples[..|samples| - 1][1..] == mid && samples[1..][..|samples| - 2] == mid;
      SumBothWays(samples[..|samples| - 1], f);
      SumBothWays(samples[1..], f);
      SumBothWays(mid, f);
    }
  }

  /** What the driver starts from: nothing, or what the log gives back, if it gives back anything. */
  function StartFrom(cfg: Config, j: Judge, samples: seq<Sample>, resume: bool, lines: seq<Line>): Option<Progress> {
    if resume then ReadBack(j, Ids(samples) - {""}, cfg.maxRounds, lines) else Some(Progress({}, 0, 0))
  }

  /** The evaluation of one sample, as the driver counts it. */
  method EvaluateSample(cfg: Config, w: World, s: Sample, stats: RunStats) returns (lines: seq<Line>)
    modifies stats
    ensures stats.processed == old(stats.processed) + 1
    ensures var st := FinalOf(cfg, w, s);
            && stats.correct == old(stats.correct) + CorrectOf(cfg, w)(s)
            && CorrectOf(cfg, w)(s) == (if st.phase.Answered? && 0 <= s.answerIdx < s.numChoices
                                           && st.phase.letter as int == 'A' as int + s.answerIdx then 1 else 0)
            && stats.totalRounds == old(stats.totalRounds) + RoundsOf(cfg, w)(s)
            && RoundsOf(cfg, w)(s) == (if st.phase.Raised? then cfg.maxRounds else st.round)
    ensures lines == LinesFrom(cfg, w, s, FinalOf(cfg, w, s).log)
  {
    hide Final, Counted;
    stats.processed := stats.processed + 1;
    var outcome, log := RunSample(cfg, w.adapter(s), w.script(s), stats);
    lines := LinesFrom(cfg, w, s, log);
    if outcome == None {
      stats.failed := stats.failed + 1;
      stats.totalRounds := stats.totalRounds + cfg.maxRounds;
    } else {
      if outcome.value.answerLetter.Some? && IsCorrect(s, outcome.value.answerLetter.value) {
        stats.correct := stats.correct + 1;
      }
      stats.totalFramesUsed := stats.totalFramesUsed + |outcome.value.seenFrames|;
    }
  }

  /** The loop of the driver over the samples that are left. */
  method EvaluateAll(cfg: Config, w: World, samples: seq<Sample>, stats: RunStats) returns (written: seq<Line>)
    modifies stats
    ensures stats.processed == old(stats.processed) + |samples|
    ensures stats.correct == old(stats.correct) + Sum(samples, CorrectOf(cfg, w))
    ensures stats.totalRounds == old(stats.totalRounds) + Sum(samples, RoundsOf(cfg, w))
    ensures written == AllLines(cfg, w, samples) == Flat(LogsOf(cfg, w, samples))
  {
    hide CorrectOf, RoundsOf;
    written := [];
    for k := 0 to |samples|
      invariant stats.processed == old(stats.processed) + k
      invariant stats.correct == old(stats.correct) + SumTo(samples[..k], CorrectOf(cfg, w))
      invariant stats.totalRounds == old(stats.totalRounds) + SumTo(samples[..k], RoundsOf(cfg, w))
      invariant written == AllLines(cfg, w, samples[..k])
    {
      assert samples[..k + 1][..k] == samples[..k];
      var lines := EvaluateSample(cfg, w, samples[k], stats);
      written := written + lines;
    }
    assert samples[..|samples|] == samples;
    LinesInOrder(cfg, w, samples);
    SumBothWays(samples, CorrectOf(cfg, w));
    SumBothWays(samples, RoundsOf(cfg, w));
  }

  /** `_run_nextqa` on the samples of its shard. Without samples it refuses to run, and it does not survive a log that
  cannot be read. */
  method RunNextQa(cfg: Config, w: World, j: Judge, samples: seq<Sample>, resume: bool, lines: seq<Line>,
                   stats: RunStats)
    returns (ok: bool, written: seq<Line>)
    modifies stats
    ensures ok <==> samples != [] && StartFrom(cfg, j, samples, resume, lines).Some?
    ensures !ok ==> written == []
    ensures ok ==>
      var p := StartFrom(cfg, j, samples, resume, lines).value;
      var rest := Rest(samples, p.done);
      && stats.processed == Min(|p.done|, |samples|) + |rest|
      && stats.correct == p.correct + Sum(rest, CorrectOf(cfg, w))
      && stats.totalRounds == p.totalRounds + Sum(rest, RoundsOf(cfg, w))
      && written == AllLines(cfg, w, rest)
  {
    hide Load, CorrectOf, RoundsOf, Readable, Rest, AllLines, Sum;
    if samples == [] {
      return false, [];
    }
    var completedIds: set<string> := {};
    var resumeCompleted, correct, totalRounds := 0, 0, 0;
    if resume {
      ok, resumeCompleted, correct, totalRounds, completedIds :=
        LoadProgressFromLog(j, lines, cfg.maxRounds, Ids(samples));
      if !ok {
        return false, [];
      }
      resumeCompleted := Min(resumeCompleted, |samples|);
    }
    stats.processed, stats.correct, stats.totalRounds := resumeCompleted, correct, totalRounds;
    var samplesToRun := if completedIds != {} then Rest(samples, completedIds) else samples[resumeCompleted..];
    RestOfNone(samples);
    written := EvaluateAll(cfg, w, samplesToRun, stats);
    ok := true;
  }

  lemma {:induction false} RestOfNone(samples: seq<Sample>)
    ensures Rest(samples, {}) == samples
  {
    if samples != [] {
      RestOfNone(samples[1..]);
    }
  }

  /** A resumed run reports the totals of one that was never interrupted. */
  ghost predicate SameTotals(cfg: Config, w: World, samples: seq<Sample>, p: Progress) {
    var rest := Rest(samples, p.done);
    && Min(|p.done|, |samples|) + |rest| == |samples|
    && p.correct + Sum(rest, CorrectOf(cfg, w)) == Sum(samples, CorrectOf(cfg, w))
    && p.totalRounds + Sum(rest, RoundsOf(cfg, w)) == Sum(samples, RoundsOf(cfg, w))
  }

  /** Whatever genuine lines a log holds, repeated, cut, or out of order, resuming from it comes to the totals of a run
  that was never interrupted. */
  lemma ResumeTotals(cfg: Config, w: World, j: Judge, samples: seq<Sample>, lines: seq<Line>)
    requires Fit(w, samples) && AllGenuine(cfg, w, samples, lines)
    ensures SameTotals(cfg, w, samples, Load(j, Ids(samples) - {""}, cfg.maxRounds, lines))
  {
    hide Load, Fit;
    LoadFaithful(cfg, w, samples, j, lines);
    var p := Load(j, Ids(samples) - {""}, cfg.maxRounds, lines);
    SumSplits(samples, p.done, (s: Sample) => 1);
    SumSplits(samples, p.done, CorrectOf(cfg, w));
    SumSplits(samples, p.done, RoundsOf(cfg, w));
    SumOnes(samples);
    SumOnes(Rest(samples, p.done));
  }

  /** A run without a log starts from nothing. */
  lemma FreshTotals(cfg: Config, w: World, samples: seq<Sample>)
    ensures SameTotals(cfg, w, samples, Progress({}, 0, 0))
  {
    RestOfNone(samples);
  }

  // ---------------------------------------------------------------- the samples read back

  /** Any log at all: the ids read back are those that may be read and stand in a line whose answer is accepted again.
  */
  lemma {:induction false} LoadDone(j: Judge, allowed: set<string>, maxRounds: int, lines: seq<Line>, id: string)
    ensures id in Load(j, allowed, maxRounds, lines).done <==>
              id != "" && (allowed == {} || id in allowed)
              && exists i :: 0 <= i < |lines| && lines[i].Entry? && lines[i].sampleId == id
                             && Replayed(j, lines[i], maxRounds).Some?
  {
    hide Replayed;
    if lines != [] {
      var before, last := lines[..|lines| - 1], |lines| - 1;
      LoadDone(j, allowed, maxRounds, before, id);
      assert forall i :: 0 <= i < last ==> before[i] == lines[i];
    }
  }

  /** The log holds an answer of the sample that the loop accepted. */
  ghost predicate HasAnswer(lines: seq<Line>, id: string) {
    exists i :: 0 <= i < |lines| && lines[i].Entry? && lines[i].sampleId == id && lines[i].turn.decision.AnswerDecision?
  }

  lemma GenuineReplay(cfg: Config, w: World, j: Judge, samples: seq<Sample>, line: Line)
    requires Fit(w, samples) && Genuine(cfg, w, samples, line) && line.Entry? && line.sampleId != ""
    requires Ids(samples) - {""} == {} || line.sampleId in Ids(samples) - {""}
    ensures line.sampleId in Ids(samples)
    ensures Replayed(j, line, cfg.maxRounds).Some? <==> line.turn.decision.AnswerDecision?
  {
    hide Replayed, Final, LogShape, Decide;
    var k, i :| 0 <= k < |samples| && 0 <= i < |FinalOf(cfg, w, samples[k]).log|
                && line == LineOf(cfg, w, samples[k], FinalOf(cfg, w, samples[k]).log[i]);
    assert samples[k] in samples;
    FinalShape(cfg, w, samples[k], i);
    ReplayAgrees(cfg, w, samples[k], j, FinalOf(cfg, w, samples[k]).log[i]);
  }

  /** From a genuine log that can be read, exactly the samples with an accepted answer in it are done. */
  lemma AnsweredAreDone(cfg: Config, w: World, j: Judge, samples: seq<Sample>, lines: seq<Line>, id: string)
    requires Fit(w, samples) && AllGenuine(cfg, w, samples, lines) && Readable(lines)
    ensures var p := StartFrom(cfg, j, samples, true, lines);
            p.Some? && (id in p.value.done <==> id != "" && id in Ids(samples) && HasAnswer(lines, id))
  {
    hide Replayed, Load, Fit, Genuine;
    var allowed := Ids(samples) - {""};
    LoadDone(j, allowed, cfg.maxRounds, lines, id);
    forall i | 0 <= i < |lines| && lines[i].Entry? && lines[i].sampleId == id && id != ""
               && (allowed == {} || id in allowed)
      ensures id in Ids(samples)
      ensures Replayed(j, lines[i], cfg.maxRounds).Some? <==> lines[i].turn.decision.AnswerDecision?
    {
      GenuineReplay(cfg, w, j, samples, lines[i]);
    }
  }

  /** A resumed run plays exactly the samples without an accepted answer in the log, and writes lines of those only. */
  lemma OnlyTheRestIsPlayed(cfg: Config, w: World, j: Judge, samples: seq<Sample>, lines: seq<Line>)
    requires Fit(w, samples) && AllGenuine(cfg, w, samples, lines) && Readable(lines)
    ensures var p := StartFrom(cfg, j, samples, true, lines);
            && p.Some?
            && (forall s :: s in Rest(samples, p.value.done) <==>
                              s in samples && (s.id == "" || !HasAnswer(lines, s.id)))
            && var written := AllLines(cfg, w, Rest(samples, p.value.done));
               forall i :: 0 <= i < |written| ==>
                 written[i].Entry? && written[i].sampleId in Ids(samples)
                 && (written[i].sampleId == "" || !HasAnswer(lines, written[i].sampleId))
  {
    hide Load, Fit, AllGenuine, HasAnswer, AllLines, Rest;
    AnsweredAreDone(cfg, w, j, samples, lines, "");
    var p := StartFrom(cfg, j, samples, true, lines).value;
    var rest := Rest(samples, p.done);
    forall s ensures s in rest <==> s in samples && (s.id == "" || !HasAnswer(lines, s.id)) {
      AnsweredAreDone(cfg, w, j, samples, lines, s.id);
      RestIs(samples, p.done, s);
    }
    forall i | 0 <= i < |AllLines(cfg, w, rest)|
      ensures var line := AllLines(cfg, w, rest)[i];
              line.Entry? && line.sampleId in Ids(samples)
              && (line.sampleId == "" || !HasAnswer(lines, line.sampleId))
    {
      var s := LinesBelong(cfg, w, rest, i);
    }
  }

  lemma {:induction false} RestIs(samples: seq<Sample>, done: set<string>, s: Sample)
    ensures s in Rest(samples, done) <==> s in samples && s.id !in done
  {
    if samples != [] {
      RestIs(samples[1..], done, s);
    }
  }

  lemma {:induction false} LinesBelong(cfg: Config, w: World, samples: seq<Sample>, i: nat) returns (s: Sample)
    requires i < |AllLines(cfg, w, samples)|
    ensures s in samples && AllLines(cfg, w, samples)[i].Entry? && AllLines(cfg, w, samples)[i].sampleId == s.id
  {
    hide Final;
    var before := samples[..|samples| - 1];
    if i < |AllLines(cfg, w, before)| {
      s := LinesBelong(cfg, w, before, i);
    } else {
      s := samples[|samples| - 1];
    }
  }

  // ---------------------------------------------------------------- crashes

  /** A log file: whole lines, and perhaps a last one whose line end is missing. The last one reads as what was written
  of it, but the next line written joins onto it, and the two together are no JSON. */
  datatype LogFile = LogFile(lines: seq<Line>, torn: Option<Line>)

  function Visible(f: LogFile): seq<Line> {
    f.lines + if f.torn.Some? then [f.torn.value] else []
  }

  function AppendLines(f: LogFile, added: seq<Line>): LogFile {
    if added == [] then f
    else if f.torn.Some? then LogFile(f.lines + [Garbage] + added[1..], None)
    else LogFile(f.lines + added, None)
  }

  /** How much of a line a cut leaves: all but its line end, a part that ends between two characters, or a part that
  ends between the bytes of one, as the texts in a line need not be ASCII. */
  datatype Tear = AllOfIt | AfterCharacter | InCharacter

  /** Where a process is cut off: after `kept` whole lines, at the line end or within the next line. */
  datatype Crash = AtLineEnd(kept: nat) | InLine(kept: nat, tear: Tear)

  /** The lines that a process which resumes from the log goes on to write. */
  function Upcoming(cfg: Config, w: World, j: Judge, samples: seq<Sample>, f: LogFile): seq<Line> {
    match StartFrom(cfg, j, samples, true, Visible(f))
    case None => []
    case Some(p) => AllLines(cfg, w, Rest(samples, p.done))
  }

  /** The log after a process that resumed from it and was cut off. A process that cannot read it writes nothing. */
  function AfterCrash(cfg: Config, w: World, j: Judge, samples: seq<Sample>, f: LogFile, c: Crash): LogFile {
    var added := Upcoming(cfg, w, j, samples, f);
    var g := AppendLines(f, Take(added, c.kept));
    if c.AtLineEnd? || c.kept >= |added| then g
    else
      match c.tear
      case InCharacter => g.(torn := Some(Undecodable))
      case AfterCharacter => g.(torn := Some(Garbage))
      case AllOfIt => g.(torn := Some(if g.torn.None? then added[c.kept] else Garbage))
  }

  /** What can be read of a log after a cut: its lines, the whole lines added, and what there is of the line that was
  being written. A line added to one without its end spoils both. */
  lemma CrashLeaves(cfg: Config, w: World, j: Judge, samples: seq<Sample>, f: LogFile, c: Crash)
    ensures var added := Upcoming(cfg, w, j, samples, f);
            var after := Visible(AfterCrash(cfg, w, j, samples, f, c));
            var k := Min(c.kept, |added|);
            var joins := f.torn.Some? && k == 0;
            var whole := if f.torn.None? then f.lines + added[..k]
                         else if joins then f.lines else f.lines + ([Garbage] + added[1..k]);
            if c.AtLineEnd? || c.kept >= |added| then after == if joins then Visible(f) else whole
            else after == whole + [match c.tear
                                   case InCharacter => Undecodable
                                   case AfterCharacter => Garbage
                                   case AllOfIt => if joins then Garbage else added[k]]
  {
    hide Upcoming;
    var added := Upcoming(cfg, w, j, samples, f);
    var k := Min(c.kept, |added|);
    assert Take(added, c.kept) == added[..k];
    if k > 0 {
      assert added[..k][1..] == added[1..k];
      assert f.lines + [Garbage] + added[1..k] == f.lines + ([Garbage] + added[1..k]);
    }
  }

  function AfterCrashes(cfg: Config, w: World, j: Judge, samples: seq<Sample>, crashes: seq<Crash>): LogFile {
    if crashes == [] then LogFile([], None)
    else AfterCrash(cfg, w, j, samples, AfterCrashes(cfg, w, j, samples, crashes[..|crashes| - 1]),
                    crashes[|crashes| - 1])
  }

  /** The cut comes while a line is being written, between the bytes of a character. */
  predicate SplitsCharacter(cfg: Config, w: World, j: Judge, samples: seq<Sample>, f: LogFile, c: Crash) {
    c.InLine? && c.tear.InCharacter? && c.kept < |Upcoming(cfg, w, j, samples, f)|
  }

  /** None of the processes was cut off inside a character. */
  predicate NoneSplits(cfg: Config, w: World, j: Judge, samples: seq<Sample>, crashes: seq<Crash>) {
    crashes == []
    || var before := crashes[..|crashes| - 1];
       NoneSplits(cfg, w, j, samples, before)
       && !SplitsCharacter(cfg, w, j, samples, AfterCrashes(cfg, w, j, samples, before), crashes[|crashes| - 1])
  }

  lemma {:induction false} LinesAreGenuine(cfg: Config, w: World, samples: seq<Sample>, some: seq<Sample>)
    requires forall s :: s in some ==> s in samples
    ensures AllGenuine(cfg, w, samples, AllLines(cfg, w, some))
  {
    hide Final;
    if some != [] {
      var s, before := some[|some| - 1], some[..|some| - 1];
      LinesAreGenuine(cfg, w, samples, before);
      assert s in some;
      var k :| 0 <= k < |samples| && samples[k] == s;
      var added := LinesFrom(cfg, w, s, FinalOf(cfg, w, s).log);
      forall i | 0 <= i < |added| ensures Genuine(cfg, w, samples, added[i]) {
        assert added[i] == LineOf(cfg, w, samples[k], FinalOf(cfg, w, samples[k]).log[i]);
      }
    }
  }

  lemma CrashGenuine(cfg: Config, w: World, j: Judge, samples: seq<Sample>, f: LogFile, c: Crash)
    requires AllGenuine(cfg, w, samples, Visible(f))
    ensures AllGenuine(cfg, w, samples, Visible(AfterCrash(cfg, w, j, samples, f, c)))
  {
    hide ReadBack, AllLines, Genuine;
    var added := Upcoming(cfg, w, j, samples, f);
    UpcomingGenuine(cfg, w, j, samples, f);
    GarbageGenuine(cfg, w, samples);
    var kept := Take(added, c.kept);
    assert forall i :: 0 <= i < |kept| ==> kept[i] == added[i];
    assert forall i :: 0 <= i < |f.lines| ==> f.lines[i] == Visible(f)[i];
    var g := AppendLines(f, kept);
    assert AllGenuine(cfg, w, samples, g.lines);
    assert g.torn.Some? ==> g == f && g.torn.value == Visible(f)[|f.lines|];
  }

  lemma UpcomingGenuine(cfg: Config, w: World, j: Judge, samples: seq<Sample>, f: LogFile)
    ensures AllGenuine(cfg, w, samples, Upcoming(cfg, w, j, samples, f))
  {
    hide ReadBack, AllLines, Genuine;
    var p := StartFrom(cfg, j, samples, true, Visible(f));
    if p.Some? {
      LinesAreGenuine(cfg, w, samples, Rest(samples, p.value.done));
    }
  }

  lemma GarbageGenuine(cfg: Config, w: World, samples: seq<Sample>)
    ensures Genuine(cfg, w, samples, Garbage) && Genuine(cfg, w, samples, Undecodable)
  {
  }

  lemma {:induction false} CrashesGenuine(cfg: Config, w: World, j: Judge, samples: seq<Sample>, crashes: seq<Crash>)
    ensures AllGenuine(cfg, w, samples, Visible(AfterCrashes(cfg, w, j, samples, crashes)))
  {
    hide AfterCrash;
    if crashes != [] {
      CrashesGenuine(cfg, w, j, samples, crashes[..|crashes| - 1]);
      CrashGenuine(cfg, w, j, samples, AfterCrashes(cfg, w, j, samples, crashes[..|crashes| - 1]),
                   crashes[|crashes| - 1]);
    }
  }

  lemma {:induction false} LinesAreReadable(cfg: Config, w: World, some: seq<Sample>)
    ensures Readable(AllLines(cfg, w, some))
  {
    hide Final;
    if some != [] {
      LinesAreReadable(cfg, w, some[..|some| - 1]);
    }
  }

  /** A cut keeps the log readable exactly when it was readable and the cut does not split a character. */
  lemma CrashReadable(cfg: Config, w: World, j: Judge, samples: seq<Sample>, f: LogFile, c: Crash)
    ensures Readable(Visible(AfterCrash(cfg, w, j, samples, f, c))) <==>
              Readable(Visible(f)) && !SplitsCharacter(cfg, w, j, samples, f, c)
  {
    hide Load, AllLines;
    var added := Upcoming(cfg, w, j, samples, f);
    var after := AfterCrash(cfg, w, j, samples, f, c);
    var p := StartFrom(cfg, j, samples, true, Visible(f));
    if p.Some? {
      LinesAreReadable(cfg, w, Rest(samples, p.value.done));
      AppendReadable(f, added, c);
      if SplitsCharacter(cfg, w, j, samples, f, c) {
        assert Visible(after)[|after.lines|].Undecodable?;
      }
    } else {
      assert AppendLines(f, []) == f && Take(added, c.kept) == [];
    }
  }

  lemma AppendReadable(f: LogFile, added: seq<Line>, c: Crash)
    requires Readable(Visible(f)) && Readable(added)
    ensures var g := AppendLines(f, Take(added, c.kept));
            Readable(g.lines) && (g.torn.Some? ==> !g.torn.value.Undecodable?)
  {
    var kept := Take(added, c.kept);
    assert forall i :: 0 <= i < |kept| ==> kept[i] == added[i];
    assert forall i :: 0 <= i < |f.lines| ==> f.lines[i] == Visible(f)[i];
    assert f.torn.Some? ==> f.torn.value == Visible(f)[|f.lines|];
  }

  lemma {:induction false} CrashesReadable(cfg: Config, w: World, j: Judge, samples: seq<Sample>, crashes: seq<Crash>)
    ensures Readable(Visible(AfterCrashes(cfg, w, j, samples, crashes))) <==> NoneSplits(cfg, w, j, samples, crashes)
  {
    hide AfterCrash, SplitsCharacter, Readable;
    if crashes == [] {
      assert Readable([]) by { NothingToRead(); }
      assert Visible(LogFile([], None)) == [];
    } else {
      CrashesReadable(cfg, w, j, samples, crashes[..|crashes| - 1]);
      CrashReadable(cfg, w, j, samples, AfterCrashes(cfg, w, j, samples, crashes[..|crashes| - 1]),
                    crashes[|crashes| - 1]);
    }
  }

  lemma NothingToRead()
    ensures Readable([])
  {
  }

  /** Crash and resume: however many processes were cut off, wherever in the log, a process can resume from it if and
  only if none of the cuts split a character, and then it reports the same processed, correct and total_rounds as a
  single run that was never interrupted. */
  lemma CrashResumeEquivalence(cfg: Config, w: World, j: Judge, samples: seq<Sample>, crashes: seq<Crash>)
    requires Fit(w, samples)
    ensures var p := StartFrom(cfg, j, samples, true, Visible(AfterCrashes(cfg, w, j, samples, crashes)));
            && (p.Some? <==> NoneSplits(cfg, w, j, samples, crashes))
            && (p.Some? ==> SameTotals(cfg, w, samples, p.value))
    ensures SameTotals(cfg, w, samples, StartFrom(cfg, j, samples, false, []).value)
  {
    hide Load, AfterCrashes, NoneSplits, Readable, Fit, SameTotals, AllGenuine;
    CrashesGenuine(cfg, w, j, samples, crashes);
    CrashesReadable(cfg, w, j, samples, crashes);
    ResumeTotals(cfg, w, j, samples, Visible(AfterCrashes(cfg, w, j, samples, crashes)));
    FreshTotals(cfg, w, samples);
  }

  /** A single cut inside a character of the very first line: no later process resumes, and none writes another line. */
  lemma SplitCharacterStops(cfg: Config, w: World, j: Judge, samples: seq<Sample>, c: Crash)
    requires AllLines(cfg, w, samples) != []
    ensures var f := AfterCrashes(cfg, w, j, samples, [InLine(0, InCharacter)]);
            f == LogFile([], Some(Undecodable)) && StartFrom(cfg, j, samples, true, Visible(f)).None?
            && AfterCrash(cfg, w, j, samples, f, c) == f
  {
    hide AllLines;
    var empty := LogFile([], None);
    RestOfNone(samples);
    assert Visible(empty) == [];
    var cut := [InLine(0, InCharacter)];
    assert cut[..0] == [];
    assert AfterCrashes(cfg, w, j, samples, cut) == AfterCrash(cfg, w, j, samples, empty, cut[0]);
    var f := LogFile([], Some(Undecodable));
    assert Visible(f)[0].Undecodable?;
  }

  // ---------------------------------------------------------------- shards

  /** `_index_shard` */
  function IndexShard<T>(samples: seq<T>, numShards: int, shardIdx: int): (r: Result<seq<T>, string>)
    ensures r.Err? <==> numShards > 1 && !(0 <= shardIdx < numShards)
  {
    var n := Max(1, numShards);
    if n <= 1 then Ok(samples)
    else if !(0 <= shardIdx < n) then Err("--shard-idx out of range")
    else Ok(Strided(samples, n, shardIdx))
  }

  /** The samples whose position leaves `r` when divided by `n`. */
  function Strided<T>(samples: seq<T>, n: int, r: int): seq<T>
    requires n >= 1
  {
    if samples == [] then []
    else
      var k := |samples| - 1;
      Strided(samples[..k], n, r) + if k % n == r then [samples[k]] else []
  }

  /** All shards together. */
  function Union<T>(samples: seq<T>, n: int, upTo: nat): multiset<T>
    requires n >= 1
  {
    if upTo == 0 then multiset{} else Union(samples, n, upTo - 1) + multiset(Strided(samples, n, upTo - 1))
  }

  lemma StridedNext<T>(samples: seq<T>, n: int, r: int, m: int)
    requires n >= 1 && samples != [] && m == (|samples| - 1) % n
    ensures var k := |samples| - 1;
            multiset(Strided(samples, n, r)) == multiset(Strided(samples[..k], n, r))
                                                + (if m == r then multiset{samples[k]} else multiset{})
  {
  }

  /** The last sample is in the shard its position falls to, and in no other. */
  lemma {:induction false} UnionNext<T>(samples: seq<T>, n: int, upTo: nat, m: int)
    requires n >= 1 && samples != [] && m == (|samples| - 1) % n && 0 <= m
    ensures var k := |samples| - 1;
            Union(samples, n, upTo) == Union(samples[..k], n, upTo)
                                       + (if m < upTo then multiset{samples[k]} else multiset{})
  {
    hide Strided;
    if upTo > 0 {
      var k := |samples| - 1;
      UnionNext(samples, n, upTo - 1, m);
      StridedNext(samples, n, upTo - 1, m);
      UnionStep(samples, n, upTo);
      UnionStep(samples[..k], n, upTo);
    }
  }

  lemma UnionStep<T>(samples: seq<T>, n: int, upTo: nat)
    requires n >= 1 && upTo > 0
    ensures Union(samples, n, upTo) == Union(samples, n, upTo - 1) + multiset(Strided(samples, n, upTo - 1))
  {
  }

  lemma {:induction false} UnionOfNone<T>(n: int, upTo: nat)
    requires n >= 1
    ensures Union<T>([], n, upTo) == multiset{}
  {
    if upTo > 0 {
      UnionOfNone<T>(n, upTo - 1);
    }
  }

  /** Every sample is in exactly one shard: together the shards hold each sample as often as the whole list does. */
  lemma {:induction false} ShardsPartition<T>(samples: seq<T>, n: int)
    requires n >= 1
    ensures Union(samples, n, n) == multiset(samples)
  {
    hide Union;
    if samples == [] {
      UnionOfNone<T>(n, n);
    } else {
      var k := |samples| - 1;
      UnionNext(samples, n, n, k % n);
      ShardsPartition(samples[..k], n);
      assert samples == samples[..k] + [samples[k]];
    }
  }

  /** What the processes of an evaluation work on, from shard 0 up. */
  function ShardUnion<T>(samples: seq<T>, numShards: int, upTo: nat): multiset<T>
    requires upTo <= Max(1, numShards)
  {
    if upTo == 0 then multiset{}
    else ShardUnion(samples, numShards, upTo - 1) + multiset(IndexShard(samples, numShards, upTo - 1).value)
  }

  lemma {:induction false} ShardUnionIs<T>(samples: seq<T>, n: int, upTo: nat)
    requires n > 1 && upTo <= n
    ensures ShardUnion(samples, n, upTo) == Union(samples, n, upTo)
  {
    hide Strided;
    if upTo > 0 {
      ShardUnionIs(samples, n, upTo - 1);
    }
  }

  /** Any number of shards, taken together, is the whole list of samples: none is left out and none is done twice. */
  lemma IndexShardsPartition<T>(samples: seq<T>, numShards: int)
    ensures ShardUnion(samples, numShards, Max(1, numShards)) == multiset(samples)
  {
    hide Union, Strided;
    if numShards > 1 {
      ShardUnionIs(samples, numShards, numShards);
      ShardsPartition(samples, numShards);
    } else {
      assert ShardUnion(samples, numShards, 0) == multiset{};
    }
  }
}
