/** The path from the stimulus table to the logged session: loading, selecting the trials and
    running the trial loop over them. */
module Session {
  import opened Stimuli
  import opened Shuffle
  import opened TrialSelection
  import opened TrialLoop

  /** Every selected trial is a kept row: its emotion cell already holds the normalised task
      emotion. */
  lemma SelectedTrialsUsable(table: seq<Row>, perm: seq<nat>)
    requires IsPermutation(perm, |Usable(table)|)
    requires SelectTrials(Usable(table), perm).Ok?
    ensures forall i :: 0 <= i < |SelectTrials(Usable(table), perm).value| ==>
              IsUsable(SelectTrials(Usable(table), perm).value[i]) &&
              Get(SelectTrials(Usable(table), perm).value[i], "emotion") ==
                NormEmotion(SelectTrials(Usable(table), perm).value[i])
  {
    var rows := Usable(table);
    var trials := SelectTrials(rows, perm).value;
    UsableEmotions(table);
    forall i | 0 <= i < |trials|
      ensures IsUsable(trials[i]) && Get(trials[i], "emotion") == NormEmotion(trials[i])
    {
      SelectedFromRows(rows, perm, i);
      var j :| 0 <= j < |rows| && rows[j] == trials[i];
    }
  }

  /** A run over trials selected from the loaded rows scores every trial whose image was shown
      against a task emotion: no shown trial is left with an empty `correct` cell. */
  lemma LoadedRunScoresShownTrials<Rt>(table: seq<Row>, perm: seq<nat>, inputs: seq<TrialInput<Rt>>)
    requires IsPermutation(perm, |Usable(table)|)
    requires SelectTrials(Usable(table), perm).Ok?
    requires |inputs| == NTrials
    ensures forall e :: e in TrialLog(SelectTrials(Usable(table), perm).value, inputs) && !e.missingFile ==>
              e.emotion.Value? && IsTaskEmotion(e.emotion.value) &&
              e.correct == Value(Value(e.respKey) == InstructedKey(e.emotion.value))
  {
    var trials := SelectTrials(Usable(table), perm).value;
    SelectedTrialsUsable(table, perm);
    ShownTrialsScored(trials, inputs);
  }
}
