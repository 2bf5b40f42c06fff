/** The trial loop of `main`: for each selected trial in turn, a pending quit key ends the run;
    a missing image is logged as a missing-file entry; otherwise the first key press (or the
    timeout) is scored against the trial's emotion and logged. Drawing, waiting and the clock
    are not modelled: what the keyboard and the file system report for each trial is an input,
    and the reaction time is an opaque value of type `Rt`. */
module TrialLoop {
  import opened Text
  import opened Stimuli

  /** `KEY_HAPPY`, `KEY_SAD` and `QUIT_KEYS`. */
  const KeyHappy: string := "right"
  const KeySad: string := "left"
  const QuitKeys: seq<string> := ["escape"]

  /** A logged cell that is either the empty string or a value. */
  datatype Cell<T> = Empty | Value(value: T)

  /** The first element of what `event.waitKeys` returns, or nothing within `MAX_RESP_TIME`. */
  datatype Response<Rt> = Timeout | Pressed(key: string, rt: Rt)

  /** What the environment reports for one trial: whether a quit key was already waiting when
      the trial began, whether the image file exists, and the response to the image. */
  datatype TrialInput<Rt> = TrialInput(quitPending: bool, imageExists: bool, response: Response<Rt>)

  /** The response columns of a trial, or the request to stop. */
  datatype Scoring<Rt> = QuitRequested | Scored(respKey: string, rt: Cell<Rt>, correct: Cell<bool>)

  /** One row of the experiment log (one `addData` group closed by `nextEntry`). The missing-file
      entry has no source, gender or emotion column, which `Empty` stands for there. */
  datatype Entry<Rt> = Entry(
    trialIndex: nat,
    filename: string,
    source: Cell<string>,
    gender: Cell<string>,
    emotion: Cell<string>,
    respKey: string,
    rt: Cell<Rt>,
    correct: Cell<bool>,
    missingFile: bool)

  /** The key the on-screen instructions assign to an emotion, if any. */
  function InstructedKey(emotion: string): Cell<string> {
    if emotion == "happy" then Value(KeyHappy)
    else if emotion == "sad" then Value(KeySad)
    else Empty
  }

  /** Scoring of the first response to an image shown for a trial whose emotion is `emotion`. */
  function Score<Rt>(emotion: string, response: Response<Rt>): (s: Scoring<Rt>)
    ensures response.Timeout? ==> s == Scored("", Empty, Value(false))
    ensures response.Pressed? ==> (s.QuitRequested? <==> response.key in QuitKeys)
    ensures response.Pressed? && s.Scored? ==> s.respKey == response.key && s.rt == Value(response.rt)
    ensures response.Pressed? && s.Scored? ==>
              (s.correct == Value(true) <==>
                 (emotion == "happy" && response.key == KeyHappy) || (emotion == "sad" && response.key == KeySad))
    ensures response.Pressed? && s.Scored? ==> (s.correct == Empty <==> !IsTaskEmotion(emotion))
  {
    match response
    case Timeout => Scored("", Empty, Value(false))
    case Pressed(key, t) =>
      if key in QuitKeys then QuitRequested
      else
        var correct :=
          if emotion == "happy" then Value(key == KeyHappy)
          else if emotion == "sad" then Value(key == KeySad)
          else Empty;
        Scored(key, Value(t), correct)
  }

  /** What one pass of the loop body does. */
  datatype Step<Rt> = Stop | Log(entry: Entry<Rt>)

  function TrialStep<Rt>(index: nat, row: Row, input: TrialInput<Rt>): (s: Step<Rt>)
    ensures s.Stop? <==>
              input.quitPending ||
              (input.imageExists && input.response.Pressed? && input.response.key in QuitKeys)
    ensures s.Log? ==> s.entry.trialIndex == index && s.entry.filename == Get(row, "filename")
    ensures s.Log? ==> (s.entry.missingFile <==> !input.imageExists)
    ensures s.Log? && !input.imageExists ==>
              s.entry.respKey == "" && s.entry.rt == Empty && s.entry.correct == Empty
    ensures s.Log? && !input.imageExists ==>
              s.entry.source == Empty && s.entry.gender == Empty && s.entry.emotion == Empty
    ensures s.Log? && input.imageExists ==>
              s.entry.source == Value(Get(row, "source")) && s.entry.gender == Value(Get(row, "gender")) &&
              s.entry.emotion == Value(NormEmotion(row))
    ensures s.Log? && input.imageExists ==>
              Score(NormEmotion(row), input.response) == Scored(s.entry.respKey, s.entry.rt, s.entry.correct)
  {
    if input.quitPending then Stop
    else if !input.imageExists then
      Log(Entry(index, Get(row, "filename"), Empty, Empty, Empty, "", Empty, Empty, true))
    else
      match Score(NormEmotion(row), input.response)
      case QuitRequested => Stop
      case Scored(key, rt, correct) =>
        Log(Entry(index, Get(row, "filename"), Value(Get(row, "source")), Value(Get(row, "gender")),
                  Value(NormEmotion(row)), key, rt, correct, false))
  }

  /** The entries the loop logs from trial position `i` on (trial indices are 1-based). */
  function LogFrom<Rt>(trials: seq<Row>, inputs: seq<TrialInput<Rt>>, i: nat): seq<Entry<Rt>>
    requires |inputs| == |trials| && i <= |trials|
    decreases |trials| - i
  {
    if i == |trials| then []
    else
      match TrialStep(i + 1, trials[i], inputs[i])
      case Stop => []
      case Log(e) => [e] + LogFrom(trials, inputs, i + 1)
  }

  lemma LogFromUnfold<Rt>(trials: seq<Row>, inputs: seq<TrialInput<Rt>>, i: nat)
    requires |inputs| == |trials| && i < |trials|
    ensures TrialStep(i + 1, trials[i], inputs[i]).Stop? ==> LogFrom(trials, inputs, i) == []
    ensures TrialStep(i + 1, trials[i], inputs[i]).Log? ==>
              LogFrom(trials, inputs, i) == [TrialStep(i + 1, trials[i], inputs[i]).entry] + LogFrom(trials, inputs, i + 1)
  {
  }

  /** A trial that is logged moves its entry from the entries still to come to those logged so
      far. */
  lemma LogFromLogged<Rt>(trials: seq<Row>, inputs: seq<TrialInput<Rt>>, i: nat,
                          before: seq<Entry<Rt>>, after: seq<Entry<Rt>>)
    requires |inputs| == |trials| && i < |trials|
    requires TrialStep(i + 1, trials[i], inputs[i]).Log?
    requires after == before + [TrialStep(i + 1, trials[i], inputs[i]).entry]
    ensures before + LogFrom(trials, inputs, i) == after + LogFrom(trials, inputs, i + 1)
  {
    LogFromUnfold(trials, inputs, i);
    var e := TrialStep(i + 1, trials[i], inputs[i]).entry;
    var rest := LogFrom(trials, inputs, i + 1);
    assert before + ([e] + rest) == (before + [e]) + rest;
  }

  /** The entries a whole run of the trial loop logs. */
  function TrialLog<Rt>(trials: seq<Row>, inputs: seq<TrialInput<Rt>>): seq<Entry<Rt>>
    requires |inputs| == |trials|
  {
    LogFrom(trials, inputs, 0)
  }

  // ---------------------------------------------------------------------------
  // Properties of scoring.

  /** A key press other than quit is scored by the instructions: correct exactly when it is the
      key the instructions give for the trial's emotion. */
  lemma ScoreFollowsInstructions<Rt>(emotion: string, key: string, t: Rt)
    requires IsTaskEmotion(emotion) && key !in QuitKeys
    ensures Score(emotion, Pressed(key, t)) == Scored(key, Value(t), Value(Value(key) == InstructedKey(emotion)))
  {
  }

  /** For either task emotion exactly one of the two response keys is correct. */
  lemma OneCorrectKey<Rt>(emotion: string, t: Rt)
    requires IsTaskEmotion(emotion)
    ensures Score(emotion, Pressed(KeyHappy, t)).Scored? && Score(emotion, Pressed(KeySad, t)).Scored?
    ensures Score(emotion, Pressed(KeyHappy, t)).correct.Value? && Score(emotion, Pressed(KeySad, t)).correct.Value?
    ensures Score(emotion, Pressed(KeyHappy, t)).correct.value != Score(emotion, Pressed(KeySad, t)).correct.value
  {
  }

  /** The key the module docstring gives for an emotion (LEFT for happy, RIGHT for sad). */
  function DocstringKey(emotion: string): string {
    if emotion == "happy" then "left" else "right"
  }

  /** Following the module docstring's key mapping instead of the constants and the on-screen
      instructions, every answer is scored incorrect. */
  lemma DocstringMappingScoredIncorrect<Rt>(emotion: string, t: Rt)
    requires IsTaskEmotion(emotion)
    ensures Score(emotion, Pressed(DocstringKey(emotion), t)).correct == Value(false)
  {
  }

  // ---------------------------------------------------------------------------
  // Properties of the trial log.

  /** The log from position `i` is never longer than the trials from `i` on. */
  lemma {:induction false} LogFromLength<Rt>(trials: seq<Row>, inputs: seq<TrialInput<Rt>>, i: nat)
    requires |inputs| == |trials| && i <= |trials|
    ensures |LogFrom(trials, inputs, i)| <= |trials| - i
    decreases |trials| - i
  {
    if i < |trials| {
      LogFromUnfold(trials, inputs, i);
      LogFromLength(trials, inputs, i + 1);
    }
  }

  /** Entry `k` of the log from position `i` is what trial `i + k` logs, with trial index
      `i + k + 1`. */
  lemma {:induction false} LogFromEntry<Rt>(trials: seq<Row>, inputs: seq<TrialInput<Rt>>, i: nat, k: nat)
    requires |inputs| == |trials| && i <= |trials|
    requires k < |LogFrom(trials, inputs, i)|
    ensures i + k < |trials|
    ensures TrialStep(i + k + 1, trials[i + k], inputs[i + k]) == Log(LogFrom(trials, inputs, i)[k])
    decreases k
  {
    LogFromLength(trials, inputs, i);
    LogFromUnfold(trials, inputs, i);
    if k > 0 {
      LogFromEntry(trials, inputs, i + 1, k - 1);
      assert LogFrom(trials, inputs, i)[k] == LogFrom(trials, inputs, i + 1)[k - 1];
      assert (i + 1) + (k - 1) == i + k;
    }
  }

  /** The trial just past the last entry of the log from position `i`, if any, stops the loop. */
  lemma {:induction false} LogFromEnd<Rt>(trials: seq<Row>, inputs: seq<TrialInput<Rt>>, i: nat)
    requires |inputs| == |trials| && i <= |trials|
    ensures i + |LogFrom(trials, inputs, i)| < |trials| ==>
              TrialStep(i + |LogFrom(trials, inputs, i)| + 1, trials[i + |LogFrom(trials, inputs, i)|],
                        inputs[i + |LogFrom(trials, inputs, i)|]).Stop?
    decreases |trials| - i
  {
    if i < |trials| {
      LogFromUnfold(trials, inputs, i);
      if TrialStep(i + 1, trials[i], inputs[i]).Log? {
        LogFromEnd(trials, inputs, i + 1);
        assert i + |LogFrom(trials, inputs, i)| == (i + 1) + |LogFrom(trials, inputs, i + 1)|;
      }
    }
  }

  /** The log holds one entry per trial, in trial order and with 1-based trial indices, up to
      the first trial that stops the loop, and nothing from that trial on. */
  lemma TrialLogShape<Rt>(trials: seq<Row>, inputs: seq<TrialInput<Rt>>)
    requires |inputs| == |trials|
    ensures |TrialLog(trials, inputs)| <= |trials|
    ensures forall k :: 0 <= k < |TrialLog(trials, inputs)| ==>
              TrialStep(k + 1, trials[k], inputs[k]) == Log(TrialLog(trials, inputs)[k]) &&
              TrialLog(trials, inputs)[k].trialIndex == k + 1 &&
              TrialLog(trials, inputs)[k].filename == Get(trials[k], "filename")
    ensures |TrialLog(trials, inputs)| < |trials| ==>
              TrialStep(|TrialLog(trials, inputs)| + 1, trials[|TrialLog(trials, inputs)|],
                        inputs[|TrialLog(trials, inputs)|]).Stop?
  {
    LogFromLength(trials, inputs, 0);
    LogFromEnd(trials, inputs, 0);
    var r := TrialLog(trials, inputs);
    forall k | 0 <= k < |r|
      ensures TrialStep(k + 1, trials[k], inputs[k]) == Log(r[k])
      ensures r[k].trialIndex == k + 1 && r[k].filename == Get(trials[k], "filename")
    {
      LogFromEntry(trials, inputs, 0, k);
    }
  }

  /** A trial whose image is missing (and that has no quit key waiting) is logged as a
      missing-file entry with empty response cells. */
  lemma MissingImageLogged<Rt>(trials: seq<Row>, inputs: seq<TrialInput<Rt>>, k: nat)
    requires |inputs| == |trials|
    requires k < |trials| && k < |TrialLog(trials, inputs)|
    requires !inputs[k].imageExists
    ensures TrialLog(trials, inputs)[k].missingFile
    ensures TrialLog(trials, inputs)[k].respKey == ""
    ensures TrialLog(trials, inputs)[k].rt == Empty && TrialLog(trials, inputs)[k].correct == Empty
  {
    TrialLogShape(trials, inputs);
  }

  lemma {:induction false} LogFromTruncate<Rt>(trials: seq<Row>, inputs: seq<TrialInput<Rt>>, q: nat, i: nat)
    requires |inputs| == |trials| && i <= q < |trials|
    requires TrialStep(q + 1, trials[q], inputs[q]).Stop?
    ensures LogFrom(trials, inputs, i) == LogFrom(trials[..q], inputs[..q], i)
    decreases q - i
  {
    LogFromUnfold(trials, inputs, i);
    if i < q {
      LogFromUnfold(trials[..q], inputs[..q], i);
      LogFromTruncate(trials, inputs, q, i + 1);
    }
  }

  /** A quit at trial position `q`, pending before the trial or given as its first response,
      ends the loop: the log is exactly what the first `q` trials alone produce, so there is no
      entry for that trial or any later one and the earlier entries are unchanged. */
  lemma QuitEndsLoop<Rt>(trials: seq<Row>, inputs: seq<TrialInput<Rt>>, q: nat)
    requires |inputs| == |trials| && q < |trials|
    requires inputs[q].quitPending ||
             (inputs[q].imageExists && inputs[q].response.Pressed? && inputs[q].response.key in QuitKeys)
    ensures TrialLog(trials, inputs) == TrialLog(trials[..q], inputs[..q])
    ensures |TrialLog(trials, inputs)| <= q
  {
    LogFromTruncate(trials, inputs, q, 0);
    TrialLogShape(trials[..q], inputs[..q]);
  }

  lemma {:induction false} LogFromPrefix<Rt>(trials: seq<Row>, inputs: seq<TrialInput<Rt>>, m: nat, i: nat)
    requires |inputs| == |trials| && i <= m <= |trials|
    ensures LogFrom(trials[..m], inputs[..m], i) <= LogFrom(trials, inputs, i)
    decreases m - i
  {
    if i < m {
      LogFromUnfold(trials, inputs, i);
      LogFromUnfold(trials[..m], inputs[..m], i);
      LogFromPrefix(trials, inputs, m, i + 1);
    }
  }

  /** Running only the first `m` trials logs a prefix of what the full run logs: later trials
      never change entries already made. */
  lemma TrialLogPrefix<Rt>(trials: seq<Row>, inputs: seq<TrialInput<Rt>>, m: nat)
    requires |inputs| == |trials| && m <= |trials|
    ensures TrialLog(trials[..m], inputs[..m]) <= TrialLog(trials, inputs)
  {
    LogFromPrefix(trials, inputs, m, 0);
  }

  /** When every trial's emotion normalises to a task emotion, as for rows the loader keeps,
      every trial that showed its image is scored: the entry carries that emotion and is correct
      exactly when the response was the instructed key (a timeout never is). */
  lemma ShownTrialsScored<Rt>(trials: seq<Row>, inputs: seq<TrialInput<Rt>>)
    requires |inputs| == |trials|
    requires forall i :: 0 <= i < |trials| ==> IsUsable(trials[i])
    ensures forall k :: 0 <= k < |TrialLog(trials, inputs)| && !TrialLog(trials, inputs)[k].missingFile ==>
              TrialLog(trials, inputs)[k].emotion.Value? &&
              IsTaskEmotion(TrialLog(trials, inputs)[k].emotion.value) &&
              TrialLog(trials, inputs)[k].correct ==
                Value(Value(TrialLog(trials, inputs)[k].respKey) == InstructedKey(TrialLog(trials, inputs)[k].emotion.value))
  {
    TrialLogShape(trials, inputs);
    var r := TrialLog(trials, inputs);
    forall k | 0 <= k < |r| && !r[k].missingFile
      ensures r[k].emotion.Value? && IsTaskEmotion(r[k].emotion.value)
      ensures r[k].correct == Value(Value(r[k].respKey) == InstructedKey(r[k].emotion.value))
    {
      assert TrialStep(k + 1, trials[k], inputs[k]) == Log(r[k]);
      var emotion := NormEmotion(trials[k]);
      assert IsTaskEmotion(emotion);
      match inputs[k].response
      case Timeout =>
      case Pressed(key, t) =>
        ScoreFollowsInstructions(emotion, key, t);
    }
  }

  /** The experiment handler, as far as the loop uses it: a list of finished entries. */
  class ExperimentLog<Rt> {
    var entries: seq<Entry<Rt>>

    constructor ()
      ensures entries == []
    {
      entries := [];
    }

    /** A group of `addData` calls closed by `nextEntry`. */
    method AddEntry(e: Entry<Rt>)
      modifies this
      ensures entries == old(entries) + [e]
    {
      entries := entries + [e];
    }
  }

  /** One pass of the loop body for trial `tIdx`; `stop` is set where the body breaks out of
      the loop. */
  method RunTrial<Rt>(log: ExperimentLog<Rt>, tIdx: nat, row: Row, input: TrialInput<Rt>) returns (stop: bool)
    modifies log
    ensures stop <==> TrialStep(tIdx, row, input).Stop?
    ensures !stop ==> log.entries == old(log.entries) + [TrialStep(tIdx, row, input).entry]
    ensures stop ==> log.entries == old(log.entries)
  {
    if input.quitPending {
      return true;
    }
    var filename := Get(row, "filename");
    if !input.imageExists {
      log.AddEntry(Entry(tIdx, filename, Empty, Empty, Empty, "", Empty, Empty, true));
      return false;
    }
    var correctEmotion := NormEmotion(row);
    var scoring := Score(correctEmotion, input.response);
    if scoring.QuitRequested? {
      return true;
    }
    log.AddEntry(Entry(tIdx, filename, Value(Get(row, "source")), Value(Get(row, "gender")),
                       Value(correctEmotion), scoring.respKey, scoring.rt, scoring.correct, false));
    return false;
  }

  /** The loop `for t_idx, row in enumerate(trials_rows, start=1)`. */
  method RunTrials<Rt>(log: ExperimentLog<Rt>, trials: seq<Row>, inputs: seq<TrialInput<Rt>>)
    requires |inputs| == |trials|
    modifies log
    ensures log.entries == old(log.entries) + TrialLog(trials, inputs)
  {
    var i := 0;
    while i < |trials|
      invariant 0 <= i <= |trials|
      invariant old(log.entries) + TrialLog(trials, inputs) == log.entries + LogFrom(trials, inputs, i)
    {
      ghost var before := log.entries;
      var stop := RunTrial(log, i + 1, trials[i], inputs[i]);
      if stop {
        LogFromUnfold(trials, inputs, i);
        break;
      }
      LogFromLogged(trials, inputs, i, before, log.entries);
      i := i + 1;
    }
  }
}
