/** The NExT-QA dataset as the loop sees it. What makes a summary good is left open. */
module NextQa {
  import opened Py
  import opened Protocol
  import opened Policy
  import opened Engine
  import opened RunFacts
  import opened StrictRuns
  import opened Frames
  import opened Candidates

  predicate IsDash(c: char) { c == '-' || c == '\U{2013}' || c == '\U{2014}' }

  /** `_frames_has_range_syntax`: a dash with a digit on each side, space aside. */
  predicate HasRange(s: string) {
    exists k :: 0 <= k < |s| && IsDash(s[k]) && EndsInDigit(RStrip(s[..k])) && StartsWithDigit(LStrip(s[k + 1..]))
  }

  predicate EndsInDigit(s: string) { s != "" && IsDigit(s[|s| - 1]) }

  predicate StartsWithDigit(s: string) { s != "" && IsDigit(s[0]) }

  /** A text around two digits that a dash parts: a hyphen, an en dash or an em dash, with white space on either side.
  */
  datatype Range = Range(front: string, a: char, w: string, dash: char, x: string, b: char, back: string)

  ghost predicate Spells(r: Range, s: string) {
    && s == r.front + ([r.a] + (r.w + ([r.dash] + (r.x + ([r.b] + r.back)))))
    && IsDigit(r.a) && Blank(r.w) && r.dash as int in {0x2D, 0x2013, 0x2014} && Blank(r.x) && IsDigit(r.b)
  }

  lemma RangeSpelled(r: Range, s: string)
    requires Spells(r, s)
    ensures HasRange(s)
  {
    hide LStrip, RStrip;
    var left, right := r.front + [r.a] + r.w, r.x + ([r.b] + r.back);
    assert s == left + ([r.dash] + right);
    var k := |left|;
    assert s[k] == r.dash && s[..k] == left && s[k + 1..] == right;
    RStripOf(r.front + [r.a], r.w);
    LStripOf(r.x, [r.b] + r.back);
  }

  lemma RangeFound(left: string, w: string, dash: char, x: string, right: string) returns (r: Range)
    requires IsDash(dash) && EndsInDigit(left) && Blank(w) && Blank(x) && StartsWithDigit(right)
    ensures Spells(r, (left + w) + ([dash] + (x + right)))
  {
    var n := |left| - 1;
    r := Range(left[..n], left[n], w, dash, x, right[0], right[1..]);
    assert left == left[..n] + [left[n]] && right == [right[0]] + right[1..];
    assert (left + w) + ([dash] + (x + right)) ==
           left[..n] + ([left[n]] + (w + ([dash] + (x + ([right[0]] + right[1..])))));
  }

  /** Range syntax is exactly a dash between two digits, with nothing but white space between. */
  lemma RangeExactly(s: string)
    ensures HasRange(s) <==> exists r :: Spells(r, s)
  {
    hide LStrip, RStrip, Spells, EndsInDigit, StartsWithDigit, IsDash, Blank;
    if HasRange(s) {
      var k :| 0 <= k < |s| && IsDash(s[k]) && EndsInDigit(RStrip(s[..k])) && StartsWithDigit(LStrip(s[k + 1..]));
      var w := RStripSplit(s[..k]);
      var x := LStripSplit(s[k + 1..]);
      var r := RangeFound(RStrip(s[..k]), w, s[k], x, LStrip(s[k + 1..]));
      assert s == s[..k] + ([s[k]] + s[k + 1..]);
    }
    forall r | Spells(r, s) ensures HasRange(s) {
      RangeSpelled(r, s);
    }
  }

  /** The adapter hooks of the dataset, for any judgement of summaries and any random choices. */
  ghost predicate IsNextQa(cfg: Config, ds: Adapter, good: string -> bool) {
    && ds.initialFrames == SampleUniform(ds.frameCount, cfg.maxFrames)
    && ds.fallbackFrames == SampleUniform(ds.frameCount, 1)
    && (forall round: nat, k, seen :: ProposedFor(ds.frameCount, k, seen, ds.candidates(round, k, seen)))
    && (forall round: nat, seen :: NewFrames(ds.frameCount, seen, ds.sampleUnseen(round, seen)))
    && (forall s :: ds.judge.normalize(s) == NormalizeAnswer(s, Labels(ds.numChoices)))
    && (forall s, n: nat :: ds.judge.summaryValid(s, n) == good(s))
    && (forall s, n: nat :: ds.commits(s, n) == (s != "" && good(s) && !ds.judge.summaryStale(s, n)))
    && (forall s :: ds.judge.rangeSyntax(s) == HasRange(s))
    && (forall reason :: ds.retryable(reason) && !ds.countExhausted(reason) && !ds.clearsPlan(reason))
  }

  /** What ProposeCandidateFrames ensures of its result. */
  ghost predicate ProposedFor(frameCount: int, k: int, seen: seq<int>, c: seq<int>) {
    NewFrames(frameCount, seen, c) && (AllIn(seen, 0, frameCount) ==> IsProposal(frameCount, Elems(seen), k, c))
  }

  lemma NoRangeInStrictBody(b: string)
    requires IsStrictSelectBody(b)
    ensures !HasRange(b)
  {
    StrictBodyChars(BeforeNumber, b);
    forall k | 0 <= k < |b| ensures !IsDash(b[k]) {
      var c := b[k];
      assert c in b;
    }
  }

  /** For a video with at least one frame, every hook names frames of the video, whatever the random choices. */
  lemma HooksHold(cfg: Config, ds: Adapter, good: string -> bool)
    requires IsNextQa(cfg, ds, good) && ds.frameCount >= 1
    ensures HooksInRange(ds)
  {
    SampleInRange(ds.frameCount, cfg.maxFrames);
    SampleInRange(ds.frameCount, 1);
    forall round: nat, k, seen ensures AllIn(ds.candidates(round, k, seen), 0, ds.frameCount) {
      assert ProposedFor(ds.frameCount, k, seen, ds.candidates(round, k, seen));
    }
    if cfg.maxFrames <= 0 {
      assert SampleUniform(ds.frameCount, cfg.maxFrames) == [];
    }
  }

  lemma CandidatesHold(cfg: Config, ds: Adapter, good: string -> bool)
    requires IsNextQa(cfg, ds, good) && CandidateCount(cfg) >= 1
    ensures CandidatesServe(cfg, ds)
  {
    forall round: nat, seen | AllIn(seen, 0, ds.frameCount) && Distinct(seen)
      ensures var c := ds.candidates(round, CandidateCount(cfg), seen);
              Disjoint(c, seen) && (|seen| < ds.frameCount ==> c != [])
    {
      DistinctCard(seen);
      assert ProposedFor(ds.frameCount, CandidateCount(cfg), seen, ds.candidates(round, CandidateCount(cfg), seen));
    }
  }

  lemma LabelsNormalize(ds: Adapter)
    requires forall s :: ds.judge.normalize(s) == NormalizeAnswer(s, Labels(ds.numChoices))
    ensures forall c :: c in Labels(ds.numChoices) ==> ds.judge.normalize([c]) == Some(c)
  {
    forall c | c in Labels(ds.numChoices) ensures ds.judge.normalize([c]) == Some(c) {
      LabelIsStrict(c, Labels(ds.numChoices));
    }
  }

  /** A strict NExT-QA run on a long enough video always leaves the model something to say that is accepted, with or
  without candidate IDs, as long as one good summary exists. */
  lemma NextQaNeverStuck(cfg: Config, ds: Adapter, good: string -> bool, outs: seq<Option<RawOutput>>, summary: string)
    requires IsNextQa(cfg, ds, good) && CandidateCount(cfg) >= 1
    requires cfg.strict && cfg.maxFrames >= 1 && ds.frameCount > Max(0, cfg.maxRounds - 1) * cfg.maxFrames
    requires good(Strip(summary)) && forall n: nat :: !ds.judge.summaryStale(Strip(summary), n)
    requires Run(cfg, ds, outs).phase.Running?
    ensures var st := Run(cfg, ds, outs);
            exists raw :: var d := Decide(ds.judge, TurnOf(cfg, ds, st), raw);
              if st.round < cfg.maxRounds then d.SelectDecision? else d.AnswerDecision?
  {
    hide Run, Decide, IsNextQa, HooksInRange, CandidatesServe, JudgeServes, CandidateCount;
    RunPaced(cfg, ds, outs);
    MulMono(0, Max(0, cfg.maxRounds - 1), cfg.maxFrames);
    HooksHold(cfg, ds, good);
    CandidatesHold(cfg, ds, good);
    JudgeHolds(cfg, ds, good, summary);
    NeverStuck(cfg, ds, outs, summary);
  }

  lemma JudgeHolds(cfg: Config, ds: Adapter, good: string -> bool, summary: string)
    requires IsNextQa(cfg, ds, good)
    requires good(Strip(summary)) && forall n: nat :: !ds.judge.summaryStale(Strip(summary), n)
    ensures JudgeServes(ds, summary)
  {
    LabelsNormalize(ds);
    NoRangeRefused(cfg, ds, good);
  }

  lemma NoRangeRefused(cfg: Config, ds: Adapter, good: string -> bool)
    requires IsNextQa(cfg, ds, good)
    ensures forall b :: IsStrictSelectBody(b) ==> !ds.judge.rangeSyntax(b)
  {
    hide IsStrictSelectBody;
    forall b | IsStrictSelectBody(b) ensures !ds.judge.rangeSyntax(b) {
      NoRangeInStrictBody(b);
    }
  }

  /** The frames of the first round, in every run. */
  lemma FirstRound(cfg: Config, ds: Adapter, good: string -> bool, outs: seq<Option<RawOutput>>)
    requires IsNextQa(cfg, ds, good) && ds.frameCount >= 1 && cfg.maxRounds >= 1
    ensures var st := Run(cfg, ds, outs);
            |st.rounds| >= 1
            && st.rounds[0] == if cfg.maxFrames >= 1 then SampleUniform(ds.frameCount, cfg.maxFrames) else []
  {
    hide SampleUniform;
    RunExtends(cfg, ds, outs, 0);
    assert outs[..0] == [];
    var init := SampleUniform(ds.frameCount, cfg.maxFrames);
    SampleInRange(ds.frameCount, cfg.maxFrames);
    SampleInRange(ds.frameCount, 1);
    assert Run(cfg, ds, []).rounds == [ShownFrames(cfg, ds, NonNegative(ds.initialFrames), [])];
    if cfg.maxFrames >= 1 {
      forall i | 0 <= i < |init| ensures init[i] >= 0 {
        var x := init[i];
        assert x in init;
      }
      NonNegativeId(init);
      WithoutNone(init, []);
    } else {
      assert init == [] by { NoSample(ds.frameCount, cfg.maxFrames); }
    }
  }

  lemma NoSample(frameCount: int, n: int)
    requires n <= 0
    ensures SampleUniform(frameCount, n) == []
  {
  }

  lemma {:induction false} NonNegativeId(s: seq<int>)
    requires forall i :: 0 <= i < |s| ==> s[i] >= 0
    ensures NonNegative(s) == s
  {
    if s != [] {
      NonNegativeId(s[1..]);
      assert s == [s[0]] + s[1..];
    }
  }

  /** A strict run never shows a frame twice, neither in two rounds nor within one, exactly when the first round does
  not ask for more frames than the video has, single frames aside. */
  lemma FramesShownOnce(cfg: Config, ds: Adapter, good: string -> bool, outs: seq<Option<RawOutput>>)
    requires IsNextQa(cfg, ds, good) && ds.frameCount >= 1 && cfg.maxRounds >= 1 && cfg.strict
    ensures var st := Run(cfg, ds, outs);
            AllDisjoint(st.rounds)
            && ((forall i :: 0 <= i < |st.rounds| ==> Distinct(st.rounds[i])) <==>
                  cfg.maxFrames <= 1 || ds.frameCount == 1 || cfg.maxFrames <= ds.frameCount)
  {
    hide SampleUniform, Run, IsNextQa, Distinct, Plans, ShownFrames;
    FirstRound(cfg, ds, good, outs);
    SampleDistinct(ds.frameCount, cfg.maxFrames);
    StrictRun(cfg, ds, outs);
    NothingDistinct();
  }

  lemma NothingDistinct()
    ensures Distinct<int>([])
  {
  }
}
