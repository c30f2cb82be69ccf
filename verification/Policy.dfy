/** The controller policy: what one model turn means, and what happens after an invalid one. */
module Policy {
  import opened Py
  import opened Protocol

  datatype Reason =
    | InvalidPaperProtocol | InvalidAnswerLetter | EarlyAnswerDisallowed
    | MissingFramesTag | FinalSelectDisallowed | InvalidSelectSummary | StaleSelectSummary
    | FramesRangeSyntax | InvalidFrames | FramesNotInCandidates | FramesOutOfRange
    | EmptyFrames | FramesAlreadySeen | FramesAllSeen | TooManyFrames

  datatype Decision =
    | AnswerDecision(letter: char)
    | SelectDecision(summary: string, frames: seq<int>)
    | InvalidDecision(reason: Reason)

  /** The dataset's own judgements: the text predicates of an adapter, taken as they are. */
  datatype Judge = Judge(
    normalize: string -> Option<char>,
    summaryValid: (string, nat) -> bool,
    summaryStale: (string, nat) -> bool,
    rangeSyntax: string -> bool)

  /** What a turn is judged against. `numChoices`, the round numbers and the candidate switches come from the run. */
  datatype Turn = Turn(
    numChoices: int,
    seen: seq<int>,
    frameCount: int,
    maxFrames: int,
    round: int,
    maxRounds: Option<int>,
    answerOnlyFinalRound: bool,
    requireAnswer: bool,
    minSelectRounds: int,
    selectRoundsSoFar: int,
    candidates: seq<int>,
    useIds: bool,
    requireCandidates: bool)

  /** The candidate frames behind a list of 1-based candidate IDs; the first ID out of range spoils the list. */
  function MapIds(ids: seq<int>, candidates: seq<int>): (r: Option<seq<int>>)
    ensures r.Some? <==> forall i :: 0 <= i < |ids| ==> 1 <= ids[i] <= |candidates|
    ensures r.Some? ==> |r.value| == |ids| && forall i :: 0 <= i < |ids| ==> r.value[i] == candidates[ids[i] - 1]
  {
    if ids == [] then Some([])
    else if !(1 <= ids[0] <= |candidates|) then None
    else
      match MapIds(ids[1..], candidates)
      case None => None
      case Some(rest) => Some([candidates[ids[0] - 1]] + rest)
  }

  predicate SomeSeen(frames: seq<int>, seen: seq<int>) { exists i :: 0 <= i < |frames| && frames[i] in seen }

  predicate SomeOutside(frames: seq<int>, lo: int, hi: int) {
    exists i :: 0 <= i < |frames| && !(lo <= frames[i] < hi)
  }

  predicate SomeNotIn(frames: seq<int>, allowed: seq<int>) { exists i :: 0 <= i < |frames| && frames[i] !in allowed }

  /** The frames a request names once candidate IDs are resolved, or why it names none. */
  function Requested(t: Turn, raw: seq<int>): Result<seq<int>, Reason> {
    if t.useIds && t.candidates != [] then
      match MapIds(raw, t.candidates)
      case None => Err(FramesOutOfRange)
      case Some(mapped) => Ok(Dedupe(mapped))
    else if t.requireCandidates && t.candidates != [] && SomeNotIn(raw, t.candidates) then
      Err(FramesNotInCandidates)
    else Ok(raw)
  }

  function JudgeFrames(t: Turn, summary: string, frames: seq<int>): Decision {
    if frames == [] then InvalidDecision(EmptyFrames)
    else if SomeSeen(frames, t.seen) then InvalidDecision(FramesAlreadySeen)
    else
      var unseen := Without(frames, t.seen);
      if unseen == [] then InvalidDecision(FramesAllSeen)
      else if |unseen| > t.maxFrames then InvalidDecision(TooManyFrames)
      else if SomeOutside(unseen, 0, t.frameCount) then InvalidDecision(FramesOutOfRange)
      else SelectDecision(summary, unseen)
  }

  function JudgeSelect(j: Judge, t: Turn, summary: string, body: string): Decision {
    var seenCount := |Elems(t.seen)|;
    if t.requireAnswer then InvalidDecision(FinalSelectDisallowed)
    else if !j.summaryValid(summary, seenCount) then InvalidDecision(InvalidSelectSummary)
    else if j.summaryStale(summary, seenCount) then InvalidDecision(StaleSelectSummary)
    else if !t.useIds && j.rangeSyntax(body) then InvalidDecision(FramesRangeSyntax)
    else if !IsStrictSelectBody(body) then InvalidDecision(InvalidFrames)
    else
      match Requested(t, Dedupe(ParseIntList(body)))
      case Err(reason) => InvalidDecision(reason)
      case Ok(frames) => JudgeFrames(t, summary, frames)
  }

  function JudgeAnswer(j: Judge, t: Turn, body: string): Decision {
    if !IsStrictAnswerBody(body, Labels(t.numChoices)) then InvalidDecision(InvalidAnswerLetter)
    else
      match j.normalize(body)
      case None => InvalidDecision(InvalidAnswerLetter)
      case Some(letter) =>
        if t.selectRoundsSoFar < t.minSelectRounds then InvalidDecision(EarlyAnswerDisallowed)
        else if t.answerOnlyFinalRound && t.maxRounds.Some? && t.round < t.maxRounds.value
        then InvalidDecision(EarlyAnswerDisallowed)
        else AnswerDecision(letter)
  }

  /** `decide_revise_action`. The branch for an action with neither an answer nor a frame request cannot be taken, as a
  parsed action always has one of the two. */
  function Decide(j: Judge, t: Turn, raw: RawOutput): Decision {
    match ParseStrictAction(raw)
    case None => InvalidDecision(InvalidPaperProtocol)
    case Some(AnswerAction(_, body)) => JudgeAnswer(j, t, body)
    case Some(SelectAction(_, summary, body)) => JudgeSelect(j, t, summary, body)
  }

  ghost predicate GoodPlan(t: Turn, f: seq<int>) {
    && 1 <= |f| <= t.maxFrames
    && Distinct(f)
    && AllIn(f, 0, t.frameCount)
    && (forall x :: x in f ==> x !in t.seen)
    && (t.candidates != [] && (t.useIds || t.requireCandidates) ==> forall x :: x in f ==> x in t.candidates)
  }

  lemma RequestedSound(t: Turn, raw: seq<int>)
    requires Distinct(raw) && Requested(t, raw).Ok?
    ensures var f := Requested(t, raw).value;
            && Distinct(f)
            && (t.candidates != [] && (t.useIds || t.requireCandidates) ==> forall x :: x in f ==> x in t.candidates)
  {
    if t.useIds && t.candidates != [] {
      var mapped := MapIds(raw, t.candidates).value;
      assert forall i :: 0 <= i < |mapped| ==> mapped[i] in t.candidates;
    }
  }

  lemma JudgedFramesSound(t: Turn, summary: string, frames: seq<int>)
    requires Distinct(frames) && JudgeFrames(t, summary, frames).SelectDecision?
    ensures JudgeFrames(t, summary, frames) == SelectDecision(summary, frames)
    ensures 1 <= |frames| <= t.maxFrames && AllIn(frames, 0, t.frameCount) && forall x :: x in frames ==> x !in t.seen
  {
    assert forall i :: 0 <= i < |frames| ==> frames[i] !in t.seen;
    WithoutNone(frames, t.seen);
  }

  /** What an accepted frame request guarantees, in every mode: new frames, each once, in range, within the budget of
  the round, and taken from the candidates whenever there are candidates to be taken from. */
  lemma AcceptedSelect(j: Judge, t: Turn, raw: RawOutput)
    requires Decide(j, t, raw).SelectDecision?
    ensures GoodPlan(t, Decide(j, t, raw).frames)
    ensures var s := Decide(j, t, raw).summary;
            !t.requireAnswer && j.summaryValid(s, |Elems(t.seen)|) && !j.summaryStale(s, |Elems(t.seen)|)
  {
    match ParseStrictAction(raw)
    case Some(SelectAction(_, summary, body)) =>
      var ints := Dedupe(ParseIntList(body));
      RequestedSound(t, ints);
      JudgedFramesSound(t, summary, Requested(t, ints).value);
  }

  lemma RequestedNonEmpty(t: Turn, raw: seq<int>)
    requires raw != [] && Requested(t, raw).Ok?
    ensures Requested(t, raw).value != []
  {
    if t.useIds && t.candidates != [] {
      var mapped := MapIds(raw, t.candidates).value;
      assert mapped[0] in mapped;
    }
  }

  lemma JudgedReasons(t: Turn, summary: string, frames: seq<int>)
    requires frames != []
    ensures var d := JudgeFrames(t, summary, frames);
            d.InvalidDecision? ==> d.reason.FramesAlreadySeen? || d.reason.TooManyFrames? || d.reason.FramesOutOfRange?
  {
    if !SomeSeen(frames, t.seen) {
      WithoutNone(frames, t.seen);
    }
  }

  /** Three of the source's reasons are never given: a strict body is never empty, and a request with a seen frame is
  refused before the check that all its frames are seen. */
  lemma UnusedReasons(j: Judge, t: Turn, raw: RawOutput)
    ensures Decide(j, t, raw).InvalidDecision? ==>
              Decide(j, t, raw).reason !in {MissingFramesTag, EmptyFrames, FramesAllSeen}
  {
    hide JudgeFrames, Requested, ParseStrictAction, ParseIntList, IsStrictAnswerBody;
    match ParseStrictAction(raw)
    case Some(SelectAction(_, summary, body)) =>
      if IsStrictSelectBody(body) {
        StrictBodyNonEmpty(body);
        var raws := ParseIntList(body);
        assert raws[0] in Dedupe(raws);
        var req := Requested(t, Dedupe(raws));
        if req.Ok? {
          RequestedNonEmpty(t, Dedupe(raws));
          JudgedReasons(t, summary, req.value);
        } else {
          RequestedReasons(t, Dedupe(raws));
        }
      }
    case _ =>
  }

  lemma RequestedReasons(t: Turn, raw: seq<int>)
    requires Requested(t, raw).Err?
    ensures Requested(t, raw).error.FramesOutOfRange? || Requested(t, raw).error.FramesNotInCandidates?
  {
  }

  /** A well-formed answer is refused only for coming too early: at a turn where enough selects were made, and which is
  the last or need not be, every label of the question is accepted as it is. */
  lemma AnswerAccepted(j: Judge, t: Turn, think: string, letter: char)
    requires letter in Labels(t.numChoices)
    requires j.normalize([letter]) == Some(letter)
    ensures Decide(j, t, RenderAction(AnswerAction(think, [letter]))) ==
            if t.selectRoundsSoFar < t.minSelectRounds
               || (t.answerOnlyFinalRound && t.maxRounds.Some? && t.round < t.maxRounds.value)
            then InvalidDecision(EarlyAnswerDisallowed) else AnswerDecision(letter)
  {
    ParseRendered(AnswerAction(think, [letter]));
    LabelIsStrict(letter, Labels(t.numChoices));
  }

  function IndexOf(x: int, s: seq<int>): (i: nat)
    requires x in s
    ensures i < |s| && s[i] == x
  {
    if s[0] == x then 0 else 1 + IndexOf(x, s[1..])
  }

  function IdsOf(frames: seq<int>, candidates: seq<int>): (ids: seq<nat>)
    requires forall i :: 0 <= i < |frames| ==> frames[i] in candidates
    ensures |ids| == |frames|
    ensures forall i :: 0 <= i < |ids| ==> 1 <= ids[i] <= |candidates| && candidates[ids[i] - 1] == frames[i]
  {
    seq(|frames|, i requires 0 <= i < |frames| => 1 + IndexOf(frames[i], candidates))
  }

  /** The output that asks for a plan: its frames by number, or by candidate ID when the turn goes by IDs. */
  function AskFor(t: Turn, summary: string, plan: seq<nat>): RawOutput
    requires plan != []
    requires t.useIds && t.candidates != [] ==> forall i :: 0 <= i < |plan| ==> plan[i] in t.candidates
  {
    var numbers := if t.useIds && t.candidates != [] then IdsOf(plan, t.candidates) else plan;
    RenderAction(SelectAction("", summary, RenderFrames(numbers)))
  }

  lemma GoodFramesJudged(t: Turn, summary: string, plan: seq<nat>)
    requires GoodPlan(t, plan)
    ensures JudgeFrames(t, summary, plan) == SelectDecision(summary, plan)
  {
    assert forall i :: 0 <= i < |plan| ==> plan[i] in plan;
    WithoutNone(plan, t.seen);
  }

  lemma NumbersRequested(t: Turn, plan: seq<nat>, numbers: seq<int>)
    requires GoodPlan(t, plan)
    requires if t.useIds && t.candidates != [] then numbers == IdsOf(plan, t.candidates) else numbers == plan
    ensures Requested(t, Dedupe(numbers)) == Ok(plan)
  {
    DedupeDistinct(numbers);
    if t.useIds && t.candidates != [] {
      var mapped := MapIds(numbers, t.candidates).value;
      assert mapped == plan;
      DedupeDistinct(mapped);
    }
  }

  lemma DecideRendered(j: Judge, t: Turn, summary: string, body: string)
    ensures Decide(j, t, RenderAction(SelectAction("", summary, body))) ==
            JudgeSelect(j, t, Strip(summary), Strip(body))
  {
    ParseRendered(SelectAction("", summary, body));
  }

  /** The converse of AcceptedSelect: every good plan can be asked for and is then accepted as it is, so the accepted
  plans are exactly the good ones. */
  lemma GoodPlanAccepted(j: Judge, t: Turn, summary: string, plan: seq<nat>)
    requires GoodPlan(t, plan) && !t.requireAnswer
    requires var s := Strip(summary); j.summaryValid(s, |Elems(t.seen)|) && !j.summaryStale(s, |Elems(t.seen)|)
    requires forall b :: IsStrictSelectBody(b) ==> !j.rangeSyntax(b)
    ensures Decide(j, t, AskFor(t, summary, plan)) == SelectDecision(Strip(summary), plan)
  {
    var numbers: seq<nat> := if t.useIds && t.candidates != [] then IdsOf(plan, t.candidates) else plan;
    var body := RenderFrames(numbers);
    DecideRendered(j, t, summary, body);
    FramesRoundTrip(numbers);
    NumbersRequested(t, plan, numbers);
    GoodFramesJudged(t, Strip(summary), plan);
  }

  // ---------------------------------------------------------------- why an output is refused

  /** The frame that a number of a request stands for. */
  function Meant(t: Turn, x: int): int {
    if t.useIds && 1 <= x <= |t.candidates| then t.candidates[x - 1] else x
  }

  ghost function FramesOf(t: Turn, numbers: set<int>): set<int> { set x | x in numbers :: Meant(t, x) }

  /** Why a request for these numbers is refused, if it is: the first of its faults that applies. */
  ghost function Fault(t: Turn, numbers: set<int>): Option<Reason> {
    var frames := FramesOf(t, numbers);
    if t.useIds && t.candidates != [] && exists x :: x in numbers && !(1 <= x <= |t.candidates|)
    then Some(FramesOutOfRange)
    else if !t.useIds && t.requireCandidates && t.candidates != [] && exists f :: f in frames && f !in t.candidates
    then Some(FramesNotInCandidates)
    else if exists f :: f in frames && f in t.seen then Some(FramesAlreadySeen)
    else if |frames| > t.maxFrames then Some(TooManyFrames)
    else if exists f :: f in frames && !(0 <= f < t.frameCount) then Some(FramesOutOfRange)
    else None
  }

  lemma PlainFrames(t: Turn, numbers: set<int>)
    requires !t.useIds || t.candidates == []
    ensures FramesOf(t, numbers) == numbers
  {
    forall x ensures x in FramesOf(t, numbers) <==> x in numbers {
      assert Meant(t, x) == x;
    }
  }

  lemma MappedFrames(t: Turn, raw: seq<int>)
    requires t.useIds && MapIds(raw, t.candidates).Some?
    ensures Elems(MapIds(raw, t.candidates).value) == FramesOf(t, Elems(raw))
  {
    var mapped := MapIds(raw, t.candidates).value;
    assert forall i :: 0 <= i < |raw| ==> mapped[i] == Meant(t, raw[i]);
    forall x | x in raw ensures Meant(t, x) in mapped {
      var i :| 0 <= i < |raw| && raw[i] == x;
      assert mapped[i] == Meant(t, x);
    }
    forall f | f in mapped ensures f in FramesOf(t, Elems(raw)) {
      var i :| 0 <= i < |mapped| && mapped[i] == f;
      assert raw[i] in raw && Meant(t, raw[i]) == f;
    }
  }

  lemma SameElems(a: seq<int>, b: seq<int>)
    requires forall x :: x in a <==> x in b
    ensures Elems(a) == Elems(b)
  {
    assert forall x :: x in Elems(a) <==> x in Elems(b);
  }

  /** The frames behind the numbers of a request, each once. */
  lemma RequestedFrames(t: Turn, raw: seq<int>)
    requires Distinct(raw)
    ensures var (numbers, r) := (Elems(raw), Requested(t, raw));
            if t.useIds && t.candidates != [] && exists x :: x in numbers && !(1 <= x <= |t.candidates|)
            then r == Err(FramesOutOfRange)
            else if !t.useIds && t.requireCandidates && t.candidates != []
                    && exists f :: f in FramesOf(t, numbers) && f !in t.candidates
            then r == Err(FramesNotInCandidates)
            else r.Ok? && Distinct(r.value) && Elems(r.value) == FramesOf(t, numbers)
  {
    hide Dedupe, Distinct, FramesOf, Meant;
    assert forall i :: 0 <= i < |raw| ==> raw[i] in Elems(raw);
    if t.useIds && t.candidates != [] {
      if MapIds(raw, t.candidates).Some? {
        var mapped := MapIds(raw, t.candidates).value;
        MappedFrames(t, raw);
        SameElems(mapped, Dedupe(mapped));
      }
    } else {
      PlainFrames(t, Elems(raw));
      if SomeNotIn(raw, t.candidates) {
        var i :| 0 <= i < |raw| && raw[i] !in t.candidates;
        var f := raw[i];
        assert f in FramesOf(t, Elems(raw)) && f !in t.candidates;
      } else {
        forall f | f in FramesOf(t, Elems(raw)) ensures f in t.candidates {
          var i :| 0 <= i < |raw| && raw[i] == f;
        }
      }
    }
  }

  lemma FramesJudged(t: Turn, summary: string, frames: seq<int>)
    requires frames != [] && Distinct(frames)
    ensures JudgeFrames(t, summary, frames) ==
            if exists f :: f in frames && f in t.seen then InvalidDecision(FramesAlreadySeen)
            else if |Elems(frames)| > t.maxFrames then InvalidDecision(TooManyFrames)
            else if exists f :: f in frames && !(0 <= f < t.frameCount) then InvalidDecision(FramesOutOfRange)
            else SelectDecision(summary, frames)
  {
    DistinctCard(frames);
    if SomeSeen(frames, t.seen) {
      var i :| 0 <= i < |frames| && frames[i] in t.seen;
      assert frames[i] in frames;
    } else {
      WithoutNone(frames, t.seen);
      if SomeOutside(frames, 0, t.frameCount) {
        var i :| 0 <= i < |frames| && !(0 <= frames[i] < t.frameCount);
        assert frames[i] in frames;
      }
    }
  }

  lemma SelectJudged(j: Judge, t: Turn, summary: string, body: string)
    requires IsStrictSelectBody(body) && !t.requireAnswer
    requires var n := |Elems(t.seen)|; j.summaryValid(summary, n) && !j.summaryStale(summary, n)
    requires t.useIds || !j.rangeSyntax(body)
    ensures var (d, fault) := (JudgeSelect(j, t, summary, body), Fault(t, Elems(ParseIntList(body))));
            if fault.Some? then d == InvalidDecision(fault.value)
            else d.SelectDecision? && d.summary == summary && Elems(d.frames) == FramesOf(t, Elems(ParseIntList(body)))
  {
    hide IsStrictSelectBody, ParseIntList, Requested, JudgeFrames, MapIds, Dedupe, Distinct, Meant;
    StrictBodyNonEmpty(body);
    var all := ParseIntList(body);
    var raw := Dedupe(all);
    assert all[0] in raw;
    SameElems(all, raw);
    RequestedFrames(t, raw);
    if Requested(t, raw).Ok? {
      var r := Requested(t, raw).value;
      assert Meant(t, all[0]) in Elems(r);
      assert forall f :: f in r <==> f in Elems(r);
      FramesJudged(t, summary, r);
    }
  }

  /** Every output, in every mode: what it is taken for, and if it is refused, for which of its faults. A select that is
  accepted asks for the frames behind its numbers. */
  lemma DecisionIs(j: Judge, t: Turn, raw: RawOutput)
    ensures var (d, n) := (Decide(j, t, raw), |Elems(t.seen)|);
            match ParseStrictAction(raw)
            case None => d == InvalidDecision(InvalidPaperProtocol)
            case Some(AnswerAction(_, body)) =>
              if !IsStrictAnswerBody(body, Labels(t.numChoices)) || j.normalize(body).None?
              then d == InvalidDecision(InvalidAnswerLetter)
              else if t.selectRoundsSoFar < t.minSelectRounds
                      || (t.answerOnlyFinalRound && t.maxRounds.Some? && t.round < t.maxRounds.value)
              then d == InvalidDecision(EarlyAnswerDisallowed)
              else d == AnswerDecision(j.normalize(body).value)
            case Some(SelectAction(_, summary, body)) =>
              if t.requireAnswer then d == InvalidDecision(FinalSelectDisallowed)
              else if !j.summaryValid(summary, n) then d == InvalidDecision(InvalidSelectSummary)
              else if j.summaryStale(summary, n) then d == InvalidDecision(StaleSelectSummary)
              else if !t.useIds && j.rangeSyntax(body) then d == InvalidDecision(FramesRangeSyntax)
              else if !IsStrictSelectBody(body) then d == InvalidDecision(InvalidFrames)
              else
                var numbers := Elems(ParseIntList(body));
                var fault := Fault(t, numbers);
                if fault.Some? then d == InvalidDecision(fault.value)
                else d.SelectDecision? && d.summary == summary && Elems(d.frames) == FramesOf(t, numbers)
  {
    hide IsStrictSelectBody, IsStrictAnswerBody, ParseIntList, Requested, JudgeFrames, Fault, ParseStrictAction, Labels;
    match ParseStrictAction(raw) {
      case Some(SelectAction(_, summary, body)) =>
        var n := |Elems(t.seen)|;
        if IsStrictSelectBody(body) && !t.requireAnswer && j.summaryValid(summary, n) && !j.summaryStale(summary, n)
           && (t.useIds || !j.rangeSyntax(body)) {
          SelectJudged(j, t, summary, body);
        }
      case _ =>
    }
  }

  datatype Resolution = Retry | Terminate | ClearFramePlan | Fallback

  /** `resolve_invalid_revise_action` as the agent loop calls it, with a retry index and a budget. */
  function Resolve(retryIdx: int, maxRetries: int, retryable: bool, strict: bool, clearPlan: bool): Resolution {
    if retryable && retryIdx < maxRetries then Retry
    else if strict then Terminate
    else if clearPlan then ClearFramePlan
    else Fallback
  }
}
