# REVISE: a verified model

This project models the parts of the REVISE repository that keep state over unbounded runs or do index arithmetic with a
simple meaning, and proves what they are meant to do. `dafny verify dfyconfig.toml` checks everything.

**The agent loop.** A sample is worked on in rounds: some frames are shown to a model, and the model answers, selects more
frames, or says something invalid, which may be retried. `Protocol` has the text formats, `Policy` the judgement of one
output, `Engine` the loop, both as a machine with one step per model output (`Step`, `Run`) and as the imperative loop
(`RunSample`), which is proved to be that machine. The model is any function from call numbers to outputs, so the theorems
of `RunFacts` and `StrictRuns` hold for every run. `Frames` and `Candidates` have the frame arithmetic, `NextQa` and
`LongVideo` the hooks of two datasets, `TimeReference` the time references of questions, and `StuckRuns` says when a run can
get stuck. `TurnRules` says case by case what one output does to a run, and what the log of a run records of each round.
Two other pieces of code claim to agree with the loop: `Teacher` is the converter of teacher traces, with simulations in
both directions, and `Resume` the driver that picks up a run from its log, with the equivalence of interrupted and
uninterrupted runs.

**The JSON prefix reader.** `Json` is the whole-text decoder of RFC 8259 (with the constants NaN, Infinity and -Infinity)
with its grammar, `JsonCuts` says what it does with broken texts, `JsonReader` is the streaming reader and `JsonPrefix`
proves exactly when its result does not depend on how the file is cut into blocks.

**The shared manifest.** `Manifest` is the lock, read, merge, write, replace protocol of several processes as interleaved
steps, any of which may be the last of its process.

**The split archive.** `Bytes`, `SplitParts`, `ZipDirectory` and `Extraction` go from positions in a cut-up archive to a
verified file, following APPNOTE.TXT sections 4.3.7, 4.3.12, 4.3.16 and 4.5.3.

**Data-parallel batches.** `DataProto`, `Dispatch`, `BatchOps` and `Slices` treat a batch of tensor and object columns as a
list of rows. `Rebalance` is the oversampling of the training data. `Py` holds a few list operations.

Where the code does not do what its documentation says or what a caller may expect, the model follows the code:

- `_read_json_array_prefix` says its flag is true if and only if the first visible character is `[`. With a limit of zero
  or less it returns true without looking (`JsonReader.IsArrayFlag`). It also decodes a top-level float that a block cuts
  right after its `.`, `e` or sign as a shorter number: exactly when is `JsonPrefix.RightAtBlockSize`.
- `_write_manifest` without a step name says it merges the entries touched in this run. It merges every step in memory,
  those read at the start included (`Manifest.WholeMemoryWrite`, `Manifest.StaleOverwrite`). Nothing calls it that way.
- The branch of `_write_manifest` that tolerates a partial write is never taken (`Manifest.Exclusive`).
- Three invalid reasons of the policy are never given (`Policy.UnusedReasons`).
- Resuming is meant to survive any interruption. A log that was cut inside the bytes of a character cannot be decoded, and
  the process that should resume from it stops (`Resume.SplitCharacterStops`); all other cuts are survived
  (`Resume.CrashResumeEquivalence`).
- Uniform sampling repeats frames when more are asked for than there are (`Frames.SampleDistinct`,
  `NextQa.FramesShownOnce`). If the initial plan is empty, the first round shows the fallback frame.
- A question about a time window can be shown frames outside it once the window is used up (`LongVideo.WindowSafety`).
- A strict run can get into a state in which every output is refused: the frames are used up while answers are still early
  (`StuckRuns.StuckExactly`).
- The converter refuses a select that names a frame twice, which the loop forgives (`Teacher.RepeatingTrace`).
- A future of a batch that is cut up twice forgets the first cut (`Dispatch.SecondCut`), folding a batch leaves its argument
  inconsistent (`BatchOps.FoldedArgument`), and concatenating batches without a table can mix up their rows
  (`DataProto.RowsMixed`; exactly when it is right is `DataProto.ConcatExactly`).
- An archive comment that is itself an end record hides the archive (`ZipDirectory.CommentWins`), the part in which the
  directory starts is read and not looked at (`ZipDirectory.CutInsideDirectory`), and an extraction destroys an extracted
  file that bears the name of its temporary file (`Extraction.AllComeOut`).

## Model

| member | source | states |
|---|---|---|
| Protocol.ParseIsInverse | revise/pnp/utils.py:114-152 | the strict parser returns an action exactly for the outputs that are, up to space around their pieces, the rendering of that action; any other sequence of tags and text is refused |
| Protocol.SpacesAre | revise/pnp/utils.py:114-152 | the ASCII characters that stripping and patterns take for white space |
| Protocol.StrictBodyGrammar | revise/pnp/policy.py:132-133 | the strict select bodies are exactly the comma-separated, freely spaced lists of numbers (the scanner against a grammar, both directions) |
| Protocol.IntsOfRequest | revise/pnp/utils.py:198-200 | reading such a list gives the values of its items, in order |
| Protocol.FramesRoundTrip | revise/pnp/utils.py:198-200 | writing any non-empty list of frames and reading it back is the identity, and the text passes the strict check |
| Protocol.StrictAnswerNormalizes | revise/pnp/policy.py:127-129 | a strict answer body normalises to the one allowed letter it consists of |
| Protocol.LenientAnswer | revise/pnp/utils.py:203-218 | normalising finds a letter if and only if some label stands anywhere in the text, and the strict bodies are the texts of one character for which it does |
| Protocol.LetterChosen | revise/pnp/utils.py:203-218 | which letter is found: the first label that is a word by itself, or without one the first label at all |
| Protocol.LettersAre | revise/pnp/utils.py:203-218 | the labels are the capitals, and each small letter stands for its capital |
| Protocol.LabelsAre | revise/pnp/utils.py:203-205 | a question has as many labels as choices, from A on, up to 26; one without choices has five |
| Policy.AcceptedSelect | revise/pnp/policy.py:204-257 | an accepted select names 1 to max_frames frames, all different, unseen, in the video, candidates where candidates are in force, with a valid and fresh summary, and never where an answer is required |
| Policy.GoodPlanAccepted | revise/pnp/policy.py:204-257 | the other direction: every plan with those properties, asked for by frame number or by candidate ID, is accepted as it is |
| Policy.AnswerAccepted | revise/pnp/policy.py:188-202 | every label of the question is accepted unless the answer is early; the exact condition for being early |
| Policy.DecisionIs | revise/pnp/policy.py:136-257 | every output at every turn: what it is taken for, and if it is refused, for which reason; for a frame request that is the first fault that the set of its numbers, or of the candidates behind them, has; an accepted one asks for the frames behind its numbers |
| Policy.UnusedReasons | revise/pnp/policy.py:136-257 | three of the invalid reasons the policy lists can never be given |
| Py.Dedupe | revise/pnp/utils.py:186-195 | same members, no repetition |
| Py.DedupeOrder | revise/pnp/utils.py:186-195 | the first occurrences, in their order |
| Engine.RunSample | revise/pnp/engine.py:119-449 | the round loop with its retry loop: every field of the outcome, the log and every counter are those of the final state of the step machine, for any model and any dataset hooks; what each step of that machine does is TurnRules.InvalidTurn and TurnRules.AcceptedTurn |
| Engine.PlayRound | revise/pnp/engine.py:272-437 | the retry loop of one round always leaves through a break, never by running out of retry numbers, in the state of the step machine |
| Engine.TakeTurn | revise/pnp/engine.py:284-432 | one turn moves the loop variables and counters exactly as one step of the machine |
| Engine.OneRound | revise/pnp/engine.py:200-432 | one turn of the round loop, from the plan to the end of the round, stays in step with the machine, counters included |
| Engine.ShowFrames | revise/pnp/engine.py:201-208 | the frames shown in a round and the append of the new ones to the seen frames |
| Engine.RunPaced | revise/pnp/engine.py:200-437 | round and retry numbers stay in range and model calls stay within what the rounds entered leave room for, whatever the model says |
| Engine.RunEnds | revise/pnp/engine.py:200-437 | termination: at most max_rounds * (max_retries + 1) model calls, then the run is over |
| Engine.EndOfRun | revise/pnp/engine.py:434-449 | the first ended state of a run is its final state |
| TurnRules.InvalidTurn | revise/pnp/engine.py:374-415 | in every reachable state an invalid output is followed by another try in the same round, with nothing changed but the counters, if and only if its reason can be retried and fewer than max_retries tries were repeated; otherwise a strict run ends with that reason, and a lenient one goes on to the next round: with the fallback frames where the plan is cleared, else with the unseen among the first candidates, a random unseen sample or the fallback frames |
| TurnRules.AcceptedTurn | revise/pnp/engine.py:417-432 | in every reachable state an accepted answer ends the run with its letter, and an accepted select shows its frames in the next round and carries its summary along if the dataset takes it |
| TurnRules.FirstTurn | revise/pnp/engine.py:188-215 | a run starts with the initial frames, or the fallback frames if there are none, cut to the budget, and with nothing counted; without rounds it breaks off |
| TurnRules.EarlyAnswers | revise/pnp/engine.py:268-271 | at every turn an answer is early if and only if fewer selects were made than asked for although a round for one is left, or answers are kept for the last round and this is not it |
| TurnRules.AcceptedFrames | revise/pnp/engine.py:286-330 | at every turn an accepted select asks for exactly the frames behind its numbers, as candidate IDs where the run goes by them: each once, within the budget, new, in the video, candidates where required, and never in the last round of a run that must end with an answer |
| TurnRules.RunBooked | revise/pnp/engine.py:272-437 | in every run, every finished round was asked about exactly as often as needed: its lines are numbered from 0, all but the last are invalid for reasons that can be retried with retries left, and the last is not |
| TurnRules.EndedAfterRetries | revise/pnp/utils.py:153-178 | a run that ends for a reason that can be retried has had exactly max(0, max_retries) + 1 outputs in its last round, all invalid for such reasons |
| RunFacts.RunBalanced | revise/pnp/engine.py:272-439 | conservation over every run, strict or not: calls = invalid + selects + [answered]; rounds = selects + fallbacks + cleared plans + [answered] + [terminated] + [running]; every logged output has exactly one fate |
| RunFacts.SeenInRange | revise/pnp/engine.py:188-215 | in every reachable state the seen frames are distinct, in the video, at most max_frames per round entered, and include everything shown |
| RunFacts.RunExtends | revise/pnp/engine.py:188-215 | seen frames, shown rounds and log only grow at their ends, across select, retry, clear and fallback paths |
| StrictRuns.StrictRun | revise/pnp/engine.py:200-437 | strict runs: entering round r means r-1 accepted selects, every earlier plan shown verbatim, frames of different rounds disjoint, every round after the first showing each of its frames once, no fallback |
| StrictRuns.RoundsBounded | revise/pnp/engine.py:200-437 | a strict run enters at most min(max_rounds, frame_count) rounds |
| StrictRuns.DecidedOutcome | revise/pnp/engine.py:270-439 | strict with a forced final answer, if the model keeps replying: every run ends in an accepted answer or an invalid-action termination, never both, and every accepted select was shown |
| StrictRuns.LastAnswerNotEarly | revise/pnp/engine.py:270-271 | in the last round of a strict run no answer is refused as early, whatever min_select_rounds is |
| StrictRuns.NeverExhausted | revise/pnp/engine.py:434-439 | a strict run with a forced final answer never falls off the end of its rounds |
| StrictRuns.NoBudgetNoSelect | revise/pnp/engine.py:200-437 | with max_frames_per_round below 1 a strict run never leaves its first round |
| StrictRuns.RaisedMeansMissing | revise/pnp/engine.py:200-437 | a run breaks off only where the model or the frame reader does |
| StrictRuns.NeverStuck | revise/pnp/policy.py:204-257 | no stuck state: if the video has more than (max_rounds-1)*max_frames frames, every reachable state of a strict run has an output that is accepted, given hooks that name frames of the video and candidates that are new |
| StrictRuns.NoWayOnExactly | revise/pnp/policy.py:188-257 | exactly when a reachable state of a strict run accepts no output at all: the round is one in which answers are early, and all frames have been seen or there is no budget |
| NextQa.NextQaNeverStuck | revise/datasets/nextqa.py:387-405 | the same for the hooks of the NExT-QA dataset, with and without candidate IDs, for all random choices |
| StuckRuns.StuckExactly | revise/datasets/nextqa.py:387-405 | some strict NExT-QA run reaches such a state if and only if there is a round in which answers are early and, with `last` the last one, max_frames < 1 or frame_count <= max_frames + (last-1) * (what a later round can show) |
| StuckRuns.GetsStuck | revise/datasets/nextqa.py:387-405 | the stuck run, which asks for all the frames that fit in every round, until there are none |
| StuckRuns.RunInReach | revise/pnp/engine.py:188-215 | no strict NExT-QA run has seen more frames than its rounds can show on request |
| NextQa.HooksHold | revise/datasets/nextqa.py:387-405 | the initial, candidate and fallback hooks only name frames of the video |
| NextQa.FirstRound | revise/datasets/nextqa.py:387-389 | the first round of every run shows the uniform sample as it is, repetitions included, or nothing without a budget |
| NextQa.FramesShownOnce | revise/pnp/engine.py:188-215 | strict NExT-QA runs: no frame is shown in two rounds, and none twice within a round if and only if max_frames <= 1 or frame_count = 1 or max_frames <= frame_count |
| NextQa.CandidatesHold | revise/datasets/nextqa.py:391-401 | the candidate hook names unseen frames, and some while there are any |
| NextQa.NoRangeInStrictBody | revise/datasets/nextqa.py:258-262 | a strict select body is never taken for range syntax |
| NextQa.RangeExactly | revise/datasets/nextqa.py:258-262 | range syntax is exactly a hyphen, en dash or em dash between two digits with nothing but white space between |
| Frames.SampleSpreads | revise/pnp/utils.py:532-542 | for 2 <= n <= frame_count the half-even samples go strictly from 0 to frame_count-1, each gap within 1 of the exact spacing |
| Frames.HalvesToEven | revise/pnp/utils.py:532-542 | positions halfway between two frames go to the even one |
| Frames.SampleEdges | revise/pnp/utils.py:532-542 | one frame is the middle one, and a video of unknown length is sampled from its start |
| Frames.SampleInRange | revise/pnp/utils.py:532-542 | every sample is a frame of the video, also when more are asked for than there are |
| Frames.SampleDistinct | revise/pnp/utils.py:532-542 | the samples are different if and only if n <= 1 or frame_count = 1 or n <= frame_count |
| Frames.SampleCount | revise/pnp/utils.py:532-542 | a sample has exactly min(n, frame_count) different frames: with n >= frame_count it takes all of them |
| Frames.SampleInclusiveSize | revise/pnp/utils.py:553-563 | min(k, size of the window) different positions of the window, its start among them, and its end if k >= 2 |
| Frames.IndicesToIntervals | revise/pnp/utils.py:566-580 | the canonical (sorted, disjoint, non-adjacent) intervals covering exactly the given indices |
| Frames.UnseenIntervals | revise/pnp/utils.py:583-595 | the canonical intervals covering exactly the unseen frames of the video |
| Frames.InIntervals | revise/pnp/utils.py:598-603 | membership |
| Frames.CanonicalUnique | revise/pnp/utils.py:566-595 | canonical intervals are determined by what they cover |
| Frames.UnseenEitherWay | revise/pnp/utils.py:566-595 | the unseen intervals and indices_to_intervals of the unseen frames are equal |
| Frames.UnseenLength | revise/pnp/utils.py:583-595 | the unseen intervals have total length frame_count less the seen frames in range |
| Candidates.ProposeCandidateFrames | revise/pnp/utils.py:786-824 | increasing, unseen, in the video, exactly min(k, frame_count - |seen|) of them; with k or more gaps, exactly the midpoints of the first k gaps, and with fewer the midpoints of all of them |
| Candidates.GapsExactly | revise/pnp/utils.py:798-805 | the gaps looked at are all stretches of unseen frames between two neighbouring bounds, a bound being a seen frame or an end of the video |
| Candidates.UnseenInGap | revise/pnp/utils.py:798-805 | every unseen frame but the first and the last of the video lies in one of the gaps |
| Candidates.WidestFirst | revise/pnp/utils.py:806 | wider gaps come first, and of equally wide ones the later |
| Candidates.Mid | revise/pnp/utils.py:808 | the middle of a gap is as far from one end as from the other, or one nearer to the first |
| Candidates.ProbeGap | revise/pnp/utils.py:807-813 | the probing of a gap never goes past its midpoint |
| Candidates.MidsAreNew | revise/pnp/utils.py:797-813 | midpoints of different gaps are different unseen frames |
| LongVideo.TimelineInjective | revise/pnp/utils.py:877-891 | for fps >= 1 the clamp never acts and different seconds map to different, increasing frames |
| LongVideo.TimelineIs | revise/pnp/utils.py:877-891 | for every frame rate and second: the timeline has the least number of seconds that holds the video, and a second shows the last frame that begins by then |
| TimeReference.ReferenceRead | revise/pnp/utils.py:1042-1083 | a reference written as two stamps (MM:SS or HH:MM:SS, in any digits) with a dash between them, and white space anywhere around them, is read as the two times it names |
| TimeReference.WindowExactly | revise/pnp/utils.py:1080-1089 | for any two times: if some second of the timeline belongs to the reference, the window holds exactly those that do (of a forward one the seconds with start < second + 1 and second < end + 1; of a backward one the whole seconds between its times, if there are any); otherwise, no time being negative, it is the last second alone; a forward reference misses the timeline exactly if it starts at its end or later |
| LongVideo.WindowIsReference | revise/benchmarks/videomme_lvbench_vllm.py:698-704 | the window of a question, from its text: exactly the seconds of the video that its reference touches, the last second if the reference lies behind the end, and the whole video if no reference can be read |
| LongVideo.ActiveRange | revise/benchmarks/videomme_lvbench_vllm.py:698-704 | the window of a question, whatever its reference text, is a non-empty range of the video |
| LongVideo.WindowProposal | revise/benchmarks/videomme_lvbench_vllm.py:469-484 | candidates are different unseen positions of the window, min(k, unseen positions of the window) of them |
| LongVideo.WindowSafety | revise/benchmarks/videomme_lvbench_vllm.py:465-489 | with frames picked from the candidates (by ID or required): every frame shown in every run lies in the window if and only if max_rounds <= 1, or the window is the whole video, or it has more than max_frames + (max_rounds-2)*min(max_frames, candidate_k) positions |
| LongVideo.GetsOutside | revise/benchmarks/videomme_lvbench_vllm.py:469-484 | whenever that condition fails there is a run, built round by round, that shows a frame outside the window |
| LongVideo.EscapeOnceExhausted | revise/benchmarks/videomme_lvbench_vllm.py:469-484 | once a window is used up and no candidates are left, any unseen frame of the video can be asked for and is the next round |
| Teacher.LogEntriesFromRounds | scripts/nextqa_openai_teacher_batch.py:428-549 | the converter's loop computes the recursive conversion, errors included |
| Teacher.Simulation | scripts/nextqa_openai_teacher_batch.py:428-549 | a trace the converter takes, with valid fresh summaries and strict answers, replays through the engine with no invalid turn, one call per output, the same shown frames, seen frames and summary every round, and the same answer |
| Teacher.ConverseSimulation | scripts/nextqa_openai_teacher_batch.py:428-549 | of the output sequences the engine plays through without an invalid turn the converter takes exactly those in which no select names a frame twice, and the entries then agree with the log of the run one by one, with the same answer |
| Teacher.RepeatingTrace | scripts/nextqa_openai_teacher_batch.py:428-549 | an output sequence the engine plays through and the converter refuses: a select that names one new frame twice |
| Teacher.FramesRefused | scripts/nextqa_openai_teacher_batch.py:481-506 | why a select body is refused, in terms of the numbers in it; one without fault is taken number by number |
| Teacher.ErrorsAreTrue | scripts/nextqa_openai_teacher_batch.py:428-549 | every error of the converter speaks of a fault that one of the outputs has |
| Resume.ReplayAgrees | revise/datasets/nextqa.py:129-158 | a logged turn is counted as answered, with the same letter, exactly when the engine accepted that answer |
| Resume.LoadProgressFromLog | revise/datasets/nextqa.py:109-194 | the line loop computes the fold over lines, first accepted answer per known sample and other lines skipped; it raises if and only if some line cannot be decoded as text |
| Resume.LoadDone | revise/datasets/nextqa.py:172-192 | any log: the ids read back are exactly the known, non-empty ones with a line whose answer is accepted again |
| Resume.AnsweredAreDone | revise/datasets/nextqa.py:109-194 | a readable log written by runs of the samples: the samples done are exactly those with an accepted answer in it, in whatever round it was given |
| Resume.OnlyTheRestIsPlayed | revise/pnp/harness.py:110-162 | from such a log, the samples played are exactly those without an accepted answer, and no line written belongs to another sample |
| Resume.CrashLeaves | revise/pnp/utils.py:1215-1221 | what can be read of a log after a process was cut off: the lines before, the whole lines added and what there is of the next; a line added behind one without its end is lost with it |
| Resume.LoadFaithful | revise/datasets/nextqa.py:109-194 | what is read back from a genuine log is what the samples read back come to |
| Resume.RunLogShape | revise/pnp/engine.py:272-439 | every logged decision is the policy's, and the only accepted answer is the last line |
| Resume.EvaluateSample | revise/pnp/harness.py:143-162 | one sample adds 1 to processed, its own value to correct and total_rounds, and its lines to the log |
| Resume.EvaluateAll | revise/pnp/harness.py:143-162 | the loop over the samples that are left adds their number and the sums of their values, and appends their lines in order |
| Resume.LinesInOrder | revise/pnp/harness.py:143-162 | the lines written are the logs of the samples one after another |
| Resume.RunNextQa | revise/pnp/harness.py:89-162 | the driver: it refuses no samples and a log that cannot be decoded; otherwise its counters are those of the replayed log plus the sums over the samples that are left |
| Resume.ResumeTotals | revise/pnp/harness.py:110-162 | resuming from any genuine log gives the totals of an uninterrupted run |
| Resume.CrashResumeEquivalence | revise/pnp/harness.py:110-162 | for distinct ids and outcomes that depend on the sample alone, after cutting a run at the end of any line or anywhere in one, any number of times, resuming works if and only if no cut splits the bytes of a character, and then ends with the same processed, correct and total_rounds |
| Resume.SplitCharacterStops | revise/datasets/nextqa.py:165-170 | the failing case: one cut inside a character of the first line, after which no process resumes or writes |
| Resume.IndexShardsPartition | revise/pnp/harness.py:57-64 | for any number of shards, the shards together hold every sample exactly as often as the list does |
| Json.DecodesExactly | scripts/common.py:136-138 | in front of a delimiter or the end, the decoder gives a value and a rest if and only if a text of the grammar for that value stands in front of that rest; the grammar has string units of its own: plain characters, the eight escapes and codes of four hex digits |
| Json.CharacterClasses | scripts/common.py:136-138 | space, digits and exponent marks are the characters that RFC 8259 lists |
| Json.ValueSound | scripts/common.py:136-138 | soundness with any rest: what is decoded is a text of the grammar, with the value it stands for |
| JsonCuts.ValueCut | scripts/common.py:136-153 | a proper prefix of a JSON text is refused unless the text is a number; something is left over if and only if the number is a float and the cut, behind at least two characters, has no digit in front of it |
| JsonReader.ReadJsonArrayPrefix | scripts/common.py:95-156 | the reader loop equals the functional reader on the blocks of the file, for every block size |
| JsonReader.IsArrayFlag | scripts/common.py:114-129 | exactly when the flag is true: the first visible character is '[', or the limit is zero or less |
| JsonPrefix.ReadRight | scripts/common.py:95-156 | for every way of cutting the file into chunks: the wanted elements are returned if and only if no chunk but the last ends inside a wanted float without a digit in front of the cut |
| JsonPrefix.RightAtBlockSize | scripts/common.py:95-156 | the same for blocks of n characters (65536 in the source): if and only if no such place, at its position in the file, is a multiple of n |
| JsonPrefix.ChunkIndependence | scripts/common.py:95-156 | without floats among the wanted elements, every way of cutting the file gives the wanted elements, whatever follows them |
| JsonPrefix.RightAtEveryBlockSize | scripts/common.py:144-155 | the reader is right at every block size if and only if none of the wanted elements is a top-level float |
| JsonPrefix.RefinesDecoder | scripts/common.py:95-156 | of any array the whole-text decoder takes, without floats among the wanted elements, the reader gives the first min(limit, n) elements |
| Manifest.NextConsistent | scripts/bootstrap_assets.py:136-191 | every action of every process keeps the protocol invariant |
| Manifest.NoLostUpdates | scripts/bootstrap_assets.py:136-191 | for every interleaving with crashes anywhere, the steps on disk are the initial ones overlaid with the committed (step, entry) pairs in commit order, each committed entry being the one its process recorded last; other keys stay; the file is never garbled |
| Manifest.OverlayLookup | scripts/bootstrap_assets.py:173-186 | no step disappears, and a step's entry is the last one committed for it |
| Manifest.Exclusive | scripts/bootstrap_assets.py:164-190 | at most one process is between lock and unlock, and a process there never meets a partly written file |
| Manifest.CrashFrees | scripts/bootstrap_assets.py:164-190 | a process may die at any point: the lock goes with it and nothing else changes |
| Manifest.LockComesBack | scripts/bootstrap_assets.py:164-190 | the holder of the lock can always go on to release it |
| Manifest.OneWrite | scripts/bootstrap_assets.py:164-190 | an uninterrupted write puts the merge on disk and leaves no temporary file of its own |
| Manifest.WriteManifest | scripts/bootstrap_assets.py:136-191 | the write itself, with the same merge |
| Manifest.StaleOverwrite | scripts/bootstrap_assets.py:151-179 | a run in which that mode would put back an older entry the writer never touched |
| Manifest.ExitCode | scripts/bootstrap_assets.py:865-870 | 1 if and only if a step that ran has failed |
| Manifest.CmdRun | scripts/bootstrap_assets.py:836-873 | the exit code is 1 if and only if a selected step raised or gave a failed result; after every selected step the file is what the peers left with that step's result put in, or a failure if it raised, and other steps leave it alone; an unreadable manifest stops it at once |
| SplitParts.AdvancePosition | scripts/extract_videoespresso_split_zip_subset.py:204-219 | the result is the place of the flat offset plus n, or an error exactly when the archive ends before it |
| SplitParts.AdvanceAdds | scripts/extract_videoespresso_split_zip_subset.py:204-219 | advancing twice is advancing once, errors included |
| SplitParts.LocateIsThere | scripts/extract_videoespresso_split_zip_subset.py:204-219 | the position reached has the flat offset it should have |
| SplitParts.ReadPart | scripts/extract_videoespresso_split_zip_subset.py:244-253 | one part is read from the offset to its end or to the last byte wanted |
| SplitParts.IterPartBytes | scripts/extract_videoespresso_split_zip_subset.py:228-253 | for every chunk size the chunks are non-empty, within the size, and concatenate to the slice of the concatenated parts; the request is served exactly when the slice is there in full |
| SplitParts.ReadFromParts | scripts/extract_videoespresso_split_zip_subset.py:221-225 | the slice, or an error; never a short result |
| SplitParts.SliceAfter | scripts/extract_videoespresso_split_zip_subset.py:204-253 | reading after an advance is reading further on |
| Bytes.PackRoundTrip | scripts/extract_videoespresso_split_zip_subset.py:109-113 | unpacking a packed little-endian record of any format gives its fields |
| Bytes.UnpackAt | scripts/extract_videoespresso_split_zip_subset.py:109-113 | field i of any record is read from the bytes behind the fields in front of it |
| Bytes.Utf8Exactly | scripts/extract_videoespresso_split_zip_subset.py:125 | the names that can be decoded are exactly the encodings of characters by RFC 3629 |
| ZipDirectory.ReadZip64Values | scripts/extract_videoespresso_split_zip_subset.py:77-102 | the loop over the extra blocks |
| ZipDirectory.Zip64RoundTrip | scripts/extract_videoespresso_split_zip_subset.py:77-102 | any subset of the four fields comes back from the ZIP64 block, with any other blocks in front and anything behind |
| ZipDirectory.Zip64Layout | scripts/extract_videoespresso_split_zip_subset.py:77-102 | the three sizes and offsets take eight bytes in the block and the disk number four |
| ZipDirectory.EntryExactly | scripts/extract_videoespresso_split_zip_subset.py:109-155 | for any bytes: an entry is read if and only if 46 bytes are there, begin with the signature and are followed by a name that is UTF-8; every field is the number at its place in the header, or the one of the ZIP64 block where the header has all ones; and where the next entry begins |
| ZipDirectory.RecordRoundTrip | scripts/extract_videoespresso_split_zip_subset.py:109-155 | one central header, with its sentinels, name, extra field and comment, gives its entry back and stops right behind |
| ZipDirectory.DirectoryRoundTrip | scripts/extract_videoespresso_split_zip_subset.py:105-155 | the encoding of any list of entries gives exactly these entries |
| ZipDirectory.IterCentralEntries | scripts/extract_videoespresso_split_zip_subset.py:105-155 | the loop gives out the entries of the directory function, and fails where it does, names that are not UTF-8 included |
| ZipDirectory.EndExactly | scripts/extract_videoespresso_split_zip_subset.py:44-74 | for any bytes: an end record is read if and only if 22 bytes are there and it counts as many entries on its disk as in all; its fields are the numbers at their places |
| ZipDirectory.FindsLast | scripts/extract_videoespresso_split_zip_subset.py:44-58 | an end record is found if and only if one can be read at the last signature in the file and that is among its last 65557 bytes |
| ZipDirectory.ArchiveRoundTrip | scripts/extract_videoespresso_split_zip_subset.py:44-74 | of a whole final part the end record is found if and only if the last signature in it starts a record that reads the same, in particular if the signature comes up once; then all the entries come back |
| ZipDirectory.CommentWins | scripts/extract_videoespresso_split_zip_subset.py:44-74 | the failing case: a comment that is itself an end record is taken for the end of the archive, and the entries are lost |
| ZipDirectory.CutInsideDirectory | scripts/extract_videoespresso_split_zip_subset.py:44-155 | an archive in two parts, with at least half of it in front of its directory, is listed exactly if it is cut in front of the directory; cut inside it, no entry is listed |
| Extraction.CompressedDataPosition | scripts/extract_videoespresso_split_zip_subset.py:256-270 | where the data of an entry starts, or an error |
| Extraction.HeaderExactly | scripts/extract_videoespresso_split_zip_subset.py:256-270 | the local header is taken if and only if its 30 bytes are there, begin with the signature and name the method of the entry; the data follow the name and the extra field, whose lengths stand at its bytes 26 and 28 |
| Extraction.PayloadExactly | scripts/extract_videoespresso_split_zip_subset.py:283-330 | an entry has a content if and only if its compressed bytes are all there, are stored or deflated, and come to its size and checksum; that content is the bytes themselves or what the decoder gives, its last output included |
| Extraction.OneByteMore | scripts/extract_videoespresso_split_zip_subset.py:296-318 | decoder and checksum go byte by byte |
| Extraction.ExtractEntry | scripts/extract_videoespresso_split_zip_subset.py:273-334 | the status and all files afterwards equal those computed from one read of the whole archive |
| Extraction.StatusIs | scripts/extract_videoespresso_split_zip_subset.py:273-334 | which status is reported, in every case; an existing file without overwrite, a dry run and an unreadable local header leave all files alone |
| Extraction.AllOrNothing | scripts/extract_videoespresso_split_zip_subset.py:273-334 | the target holds verified bytes or what it held before, no temporary file is left by an attempt, no other file changes |
| Extraction.EntryComesOut | scripts/extract_videoespresso_split_zip_subset.py:256-334 | wherever the archive is cut, an entry whose local header and data stand at its offset and decompress to its size and checksum is extracted |
| Extraction.ArchiveComesOut | scripts/extract_videoespresso_split_zip_subset.py:105-334 | a whole archive, members then directory then end record, cut into parts anywhere in front of its directory: the directory lists the members in order and each is extracted with its own content |
| Extraction.ExtractAll | scripts/extract_videoespresso_split_zip_subset.py:379-394 | the loop over the requested entries, which ends at the first that fails |
| Extraction.StopsAtFailure | scripts/extract_videoespresso_split_zip_subset.py:379-394 | the first entry that fails ends the loop, and the ones behind it are not tried |
| Extraction.AllComeOut | scripts/extract_videoespresso_split_zip_subset.py:379-394 | extracting such entries into different files leaves every content in its file, except that a file that bears the temporary name of a later one is gone |
| DataProto.ConcatRows | verl/protocol.py:917-961 | for batches with the same columns, the rows of a concatenation are the rows of the batches in order, tensor and object columns aligned |
| DataProto.ConcatExactly | verl/protocol.py:917-961 | a concatenation is a batch with exactly the rows of the batches in order if and only if every batch that has rows has the columns of the first, and the others have no more columns than it |
| DataProto.RowsMixed | verl/protocol.py:917-961 | an input where rows are mixed: three valid batches of one row without a table, whose concatenation has a row put together from two of theirs |
| DataProto.SliceRows | verl/protocol.py:675-719 | slicing a batch slices its rows, in all columns alike |
| Slices.SliceByRows | verl/protocol.py:675-719 | any bounds, missing or negative, and any step: the rows at the indices of the slice, in all columns alike, unless the step is refused |
| Slices.UnitSlice | verl/protocol.py:675-719 | with no step, 1 or -1 the rows taken are exactly those between the bounds, counted from the end where negative and without effect where missing or outside, each once, forwards or backwards |
| Slices.EveryStep | verl/protocol.py:675-719 | with a longer step they are every |step|-th of those, the first included |
| Slices.RefusedExactly | verl/protocol.py:675-719 | which slices are refused |
| Slices.ProgressionIs | verl/protocol.py:675-719 | these indices are the steps from the first bound that lie in front of the second, and no more |
| Slices.PlainSlice | verl/protocol.py:675-719 | without a step and with bounds inside the batch it is the plain slice |
| Dispatch.PadToDivisor | verl/protocol.py:74-99 | padded row i is original row i mod n, the size is the next multiple, columns stay aligned |
| Dispatch.ChunkRows | verl/protocol.py:864-903 | part i is the i-th slice of the rows |
| Dispatch.SplitRows | verl/protocol.py:905-914 | parts of one size, which concatenate to the rows |
| Dispatch.ChunkMapConcat | verl/protocol.py:864-961 | chunk, row-wise work on every part, concat is the map of the rows |
| Dispatch.DispatchIsMap | verl/protocol.py:74-106 | pad, chunk, row-wise work on every part, concat, unpad is the map of the original rows |
| Dispatch.FutureParts | verl/protocol.py:1197-1228 | getting part i of a future is part i of the concatenated results |
| Dispatch.SecondCut | verl/protocol.py:1197-1228 | a future cut up twice: its part is the part of the concatenated results by the second cut alone; it is the part of the part, errors included, if and only if the first cut was into one, there are no rows, or the second cut alone is not even |
| Dispatch.SecondHalfLost | verl/protocol.py:1197-1228 | an input where they differ: of two rows, part 0 of 1 of part 1 of 2 gives both rows |
| BatchOps.RepeatRows | verl/protocol.py:1054-1100 | per-row repetition repeats the rows, in all columns alike |
| BatchOps.CopiesOf | verl/protocol.py:1054-1100 | where the copies of a row stand |
| BatchOps.RepeatBatchRows | verl/protocol.py:971-1013 | interleaved or stacked repetition of a batch, in all columns alike |
| BatchOps.Interleaved | verl/protocol.py:971-1013 | interleaved: row i is row i / times |
| BatchOps.TiledAt | verl/protocol.py:971-1013 | stacked: row i is row i mod n |
| BatchOps.Proto.Reorder | verl/protocol.py:963-969 | the rows at the given indices, in place |
| BatchOps.Proto.Padding | verl/protocol.py:849-862 | copies of the first or last row appended, in place |
| BatchOps.FoldBatchDim | verl/protocol.py:202-219 | the folded batch; the object columns of the argument are folded as well |
| BatchOps.FoldedAt | verl/protocol.py:202-219 | every row of a folded column gets n / new_size cells, in order |
| BatchOps.FoldRoundTrip | verl/protocol.py:202-238 | folding and unfolding is the identity on the columns |
| BatchOps.FoldedArgument | verl/protocol.py:202-219 | the argument of a fold stays consistent if and only if it has no object columns or kept its size |
| Rebalance.NeededIsLeast | revise/generate_sft_data.py:113-123 | the number added is the least that reaches the target ratio |
| Rebalance.AugmentedRatio | revise/generate_sft_data.py:92-128 | for any choice and any shuffle, everything is kept as often as it was there, only selections are added, no more than needed, and the target is reached unless there is nothing to choose from |
| Rebalance.LeftAlone | revise/generate_sft_data.py:92-117 | when the conversations stay as they are, order included, and which targets are refused |

## Left out

- Regular expressions: model outputs are sequences of tags and text, select bodies are scanned by a small automaton, and
  only ASCII space, digits and letters are treated.
- Protocol.StrictBodyGrammar: the digits and spaces of other scripts, which the pattern also matches, are not modelled.
- Summary quality (placeholders, the OHRPU form, banned examples, staleness) is any predicate, the same for the engine, the
  converter and the replay.
- Prompt texts, question formatting and retry wording; only the frames and the summary passed into a prompt are modelled.
- Model calls, frame extraction and video decoding are arbitrary inputs, which may fail.
- `random`: any result of the promised size and membership.
- Floating point: frame rates, spacings and ratios are exact.
- Frames.SampleInclusiveSize: the spacing is taken exactly, while the source adds rounded floats.
- The one-shot baseline, caption mode, wandb and argparse plumbing, the vLLM and HuggingFace servers.
- Resuming EgoSchema and the long-video runs, which skips by a count rather than by sample id.
- `shard_by_video`.
- TimeReference.ReferenceRead: `int` and `float` of a text are any functions, which for the round trip read digits as the
  number they stand for; infinities are not modelled.
- Integers of a frame request that are too long for Python to read.
- JSON: string escapes and number values are kept as text; the recursion limit and the limit on the digits of an integer
  are not modelled.
- JsonPrefix.ReadRight: numbers are compared as they are written, so a last wanted `1.0` that is cut behind its point counts
  as wrong although the `1` that is returned is equal to it in Python.
- JsonReader.ReadJsonArrayPrefix: the file is taken as decoded text; bytes that cannot be decoded, which make a read fail
  even behind the wanted elements, are not modelled.
- The manifest's temporary files are told apart by process number on one machine; power loss and several hosts are not
  modelled.
- Manifest.CmdRun: what the peers do between two writes of this process is an input, and the steps themselves are given
  results.
- Extraction.ExtractEntry: an interrupt that is no exception may leave the temporary file; DEFLATE is any byte-by-byte
  decoder and CRC-32 any fold over bytes.
- The choice of the wanted entries of an archive by their names.
- Slices.SliceByRows: that a tensor refuses a step backwards is taken from the tensor library; tables without columns are
  taken to allow it.
- Batches: automatic padding, meta data, devices, serialisation, `union`, `pop`, `rename`, the chunking of a batch without
  rows by tensordict, and one repeat count standing for all rows.
- BatchOps.FoldBatchDim: that argument and result share one dictionary afterwards is modelled only as equal contents.
- The other parts of the training-data generator: the choice of valid conversations and the validation split.
- Download, doctor, paper-suite and report scripts, and the configuration classes.
