/** Trial selection in `main`: the loaded rows are copied and shuffled (sampling without
    replacement), the run fails when fewer than `N_TRIALS` rows exist, and otherwise the shuffled
    list is cut to exactly `N_TRIALS` rows. */
module TrialSelection {
  import opened Wrappers
  import opened Stimuli
  import opened Shuffle

  /** `N_TRIALS`, the number of trials per participant. */
  const NTrials: nat := 79

  /** "Not enough unique images: requested N, but only M available." */
  datatype SelectionError = NotEnoughUnique(requested: nat, available: nat)

  function SelectTrials(rows: seq<Row>, perm: seq<nat>): (r: Result<seq<Row>, SelectionError>)
    requires IsPermutation(perm, |rows|)
    ensures r.Err? <==> |rows| < NTrials
    ensures r.Err? ==> r.error == NotEnoughUnique(NTrials, |rows|)
    ensures r.Ok? ==> |r.value| == NTrials
    ensures r.Ok? ==> multiset(r.value) <= multiset(rows)
    ensures r.Ok? ==> r.value == Permute(rows, perm)[..NTrials]
  {
    var shuffled := Permute(rows, perm);
    PermuteMultiset(rows, perm);
    if |shuffled| < NTrials then
      Err(NotEnoughUnique(NTrials, |shuffled|))
    else
      PrefixSubMultiset(shuffled, NTrials);
      Ok(shuffled[..NTrials])
  }

  /** With no row listed twice in the table, no row appears twice among the trials. */
  lemma SelectionHasNoRepeats(rows: seq<Row>, perm: seq<nat>)
    requires IsPermutation(perm, |rows|)
    requires NoRepeats(rows)
    ensures SelectTrials(rows, perm).Ok? ==> NoRepeats(SelectTrials(rows, perm).value)
  {
    var r := SelectTrials(rows, perm);
    if r.Ok? {
      forall i, j | 0 <= i < j < |r.value| ensures r.value[i] != r.value[j] {
        RepeatCount(r.value, i, j);
        NoRepeatsCounts(rows, r.value[i]);
      }
    }
  }

  /** Every selected trial is one of the rows given. */
  lemma SelectedFromRows(rows: seq<Row>, perm: seq<nat>, k: nat)
    requires IsPermutation(perm, |rows|)
    requires SelectTrials(rows, perm).Ok? && k < NTrials
    ensures SelectTrials(rows, perm).value[k] in rows
  {
    var v := SelectTrials(rows, perm).value;
    assert v[k] in multiset(v);
  }

  /** No two rows name the same image file. */
  predicate DistinctFiles(s: seq<Row>) {
    forall i, j :: 0 <= i < j < |s| ==> Get(s[i], "filename") != Get(s[j], "filename")
  }

  /** Sampling without replacement: when no image file is listed twice among the loaded rows,
      no image appears twice among the trials. */
  lemma SelectionHasDistinctFiles(rows: seq<Row>, perm: seq<nat>)
    requires IsPermutation(perm, |rows|)
    requires DistinctFiles(rows)
    ensures SelectTrials(rows, perm).Ok? ==> DistinctFiles(SelectTrials(rows, perm).value)
  {
    var r := SelectTrials(rows, perm);
    if r.Ok? {
      var v := r.value;
      forall i, j | 0 <= i < j < |v| ensures Get(v[i], "filename") != Get(v[j], "filename") {
        PermutationInjective(perm, |rows|, i, j);
        assert v[i] == rows[perm[i]] && v[j] == rows[perm[j]];
      }
    }
  }
}
