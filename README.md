# Happy/Sad face classification experiment — Dafny model

`psychopy_exp.py` is a PsychoPy script that runs one session of a face-emotion experiment. It:

- loads a stimulus table (filename, source, gender and emotion columns);
- keeps only the rows whose emotion normalises to `happy` or `sad`;
- shuffles those rows;
- refuses to run with fewer than 79 of them, and otherwise keeps the first 79;
- picks up to four practice images;
- shows the 79 trials, scoring the first key press of each against the trial's emotion;
- logs one entry per trial into a per-run results directory built from a sanitised participant name and session name.

This project models the logic of that script. The screen, keyboard, clock, file system and random number generator become explicit inputs.

| module | file | models |
|---|---|---|
| `Text` | `text.dfy` | `str.strip()` and `str.lower()` on ASCII text |
| `Wrappers` | `wrappers.dfy` | a `Result` type for the error paths |
| `ResultsPath` | `results_path.dfy` | `ensure_results_path`: the name sanitiser, the run directory and the base file name |
| `Stimuli` | `stimuli.dfy` | `load_trials_from_csv`: filtering and normalising rows (an imperative loop) |
| `Shuffle` | `shuffle.dfy` | `random.shuffle` as an index permutation given as input |
| `TrialSelection` | `selection.dfy` | shuffling, the error when there are fewer than `N_TRIALS` rows, truncation |
| `Practice` | `practice.dfy` | `pick_practice_examples` (an imperative loop) |
| `TrialLoop` | `trial_loop.dfy` | scoring, and the trial loop appending entries to the experiment handler (a class) |
| `Session` | `session.dfy` | how loading, selection and the trial loop fit together |

Randomness is modelled as follows:

- A shuffle is a permutation `perm` of the indices, required to be a true permutation (`IsPermutation`).
- `random.choice(pool)` is `pool[c % |pool|]` for a natural number `c` given as input.
- The timestamp `run_stamp` is an opaque string that contains no `/`.

Each trial's input (`TrialInput`) has three parts:

- whether a quit key was waiting before the trial;
- whether the image file exists;
- the response: a timeout, or the first key pressed with its reaction time.

The reaction time is a value of an opaque type parameter `Rt`. The log's cells that can be blank (`""` in the script) are `Cell<T>`, which is `Empty` or a `Value`.

In the code, `KEY_HAPPY` is `"right"` and `KEY_SAD` is `"left"` (lines 41–42), and the on-screen instructions agree (lines 199–200). The module docstring (lines 8–9) gives the opposite mapping. The model follows the code. `DocstringMappingScoredIncorrect` proves that a participant who followed the docstring's mapping would have every answer scored incorrect.

## Model

| member | source | states |
|---|---|---|
| Text.Strip | psychopy_exp.py:80 | the result has no leading or trailing whitespace and is no longer than the input |
| Text.StripLeft | psychopy_exp.py:80 | dropping leading whitespace: the result is no longer than the input and does not start with whitespace |
| Text.StripRight | psychopy_exp.py:80 | dropping trailing whitespace: the result is no longer than the input and does not end with whitespace |
| Text.StripLeftSuffix | psychopy_exp.py:80 | what is dropped on the left is whitespace only: the result is a suffix of the input and everything before it is whitespace |
| Text.StripRightPrefix | psychopy_exp.py:80 | what is dropped on the right is whitespace only: the result is a prefix of the input and everything after it is whitespace |
| Text.Lower | psychopy_exp.py:80 | lower-casing keeps the length |
| Text.LowerSpec | psychopy_exp.py:80 | every upper-case letter becomes its own lower-case letter (`A`→`a`, …), none is left, and every other character is unchanged |
| Text.NormalFormFixed | psychopy_exp.py:253 | a value already normalised by line 80's strip+lower is fixed by the second strip+lower at line 253 |
| Text.StripLowerIdempotent | psychopy_exp.py:80 | strip+lower applied twice equals strip+lower applied once |
| ResultsPath.KeepAllowed | psychopy_exp.py:120-121 | the filtered name contains only alphanumerics, `-` and `_`, and is no longer than the input |
| ResultsPath.SafeName | psychopy_exp.py:120-121 | with a non-empty fallback of allowed characters, the result is never empty and holds only allowed characters; it is the filtered name when that is non-empty, otherwise the fallback (`anon` / `001`) |
| ResultsPath.SafeParticipant | psychopy_exp.py:120 | `safe_participant`: the sanitiser with fallback `anon`; its properties are stated by SafeNamesWellFormed, SafeNameIdempotent, SafeNameHasNoSlash and StripIrrelevant |
| ResultsPath.SafeSession | psychopy_exp.py:121 | `safe_session`: the sanitiser with fallback `001`; its properties are stated by the same lemmas |
| ResultsPath.PathJoin | psychopy_exp.py:123 | `os.path.join` for a second part not starting with `/`; read back by SplitJoin and JoinComponent |
| ResultsPath.RunDir | psychopy_exp.py:123 | `run_dir`; its shape is stated by PathLayout and its injectivity by RunDirInjective |
| ResultsPath.BaseName | psychopy_exp.py:127 | the file name `sub-P_ses-S_stamp`; NamedDirsHaveNoSlash states that it is one path component |
| ResultsPath.EnsureResultsPath | psychopy_exp.py:116-127 | the returned path; PathLayout states that it is the run directory plus exactly the base name |
| ResultsPath.KeepAllowedCounts | psychopy_exp.py:120-121 | every allowed character is kept as often as it occurs; every other character is dropped |
| ResultsPath.KeepAllowedInOrder | psychopy_exp.py:120-121 | the filtered name is a subsequence of the input (order preserved) |
| ResultsPath.KeepAllowedFixed | psychopy_exp.py:120-121 | filtering leaves a name unchanged if and only if every character is allowed |
| ResultsPath.KeepAllowedAppend | psychopy_exp.py:120-121 | filtering a concatenation is the concatenation of the filtered parts |
| ResultsPath.KeepAllowedStripLeft | psychopy_exp.py:143-144 | dropping leading whitespace does not change the filtered name |
| ResultsPath.KeepAllowedStripRight | psychopy_exp.py:143-144 | dropping trailing whitespace does not change the filtered name |
| ResultsPath.StripIrrelevant | psychopy_exp.py:143-144 | the `.strip()` applied to the dialog values never changes the sanitised name |
| ResultsPath.SafeNamesWellFormed | psychopy_exp.py:120-121 | sanitised participant and session names are never empty and hold only allowed characters |
| ResultsPath.SafeNameIdempotent | psychopy_exp.py:120-121 | sanitising an already sanitised name changes nothing |
| ResultsPath.SafeNameKeepsAllowed | psychopy_exp.py:120-121 | a non-empty name made only of allowed characters is kept as it is |
| ResultsPath.SafeNameHasNoSlash | psychopy_exp.py:120-121 | a sanitised name never contains a path separator |
| ResultsPath.NamedDirsHaveNoSlash | psychopy_exp.py:123-127 | `sub-…`, `ses-…` and the base file name are single path components |
| ResultsPath.Split | psychopy_exp.py:123 | splitting a path on `/` yields at least one component |
| ResultsPath.SplitNoSlash | psychopy_exp.py:123 | a string without `/` is a single component |
| ResultsPath.SplitConcat | psychopy_exp.py:123 | the components of `a/b` are those of `a` followed by those of `b` |
| ResultsPath.SplitJoin | psychopy_exp.py:123 | the components of a joined path are the directory's components (none for an empty directory, no empty one for a trailing `/`) followed by those of the joined part |
| ResultsPath.JoinComponent | psychopy_exp.py:123-127 | joining one component onto a directory adds exactly that component |
| ResultsPath.PathLayout | psychopy_exp.py:123-127 | the run directory is the results directory's components followed by exactly `sub-P`, `ses-S`, the stamp; the returned path adds exactly the base name `sub-P_ses-S_stamp` |
| ResultsPath.RunDirInjective | psychopy_exp.py:123 | two runs with the same stamp share a directory only if their sanitised participant and session names are equal |
| Stimuli.Normalized | psychopy_exp.py:84 | a kept row keeps all its columns and other cells; its emotion cell becomes the normalised emotion |
| Stimuli.NormEmotion | psychopy_exp.py:80 | `str(row.get("emotion", "")).strip().lower()`; StripLowerIdempotent and NormalizedIsNormal state that it is a normal form |
| Stimuli.Usable | psychopy_exp.py:78-85 | the kept rows are never more than the table's rows |
| Stimuli.LoadTrials | psychopy_exp.py:65-92 | a missing file gives `CsvNotFound(path)`; no usable row gives `NoUsableRows`; otherwise exactly the kept, normalised rows in table order |
| Stimuli.NormalizedIsNormal | psychopy_exp.py:80-84 | a kept row is still usable, its emotion normalises to the same value, and normalising it again changes nothing |
| Stimuli.UsableAppend | psychopy_exp.py:78-85 | filtering a concatenated table is the concatenation of the filtered parts |
| Stimuli.UsableKeeps | psychopy_exp.py:78-85 | every usable table row appears, normalised, in the result |
| Stimuli.UsableOrigin | psychopy_exp.py:78-85 | every kept row is the normalised form of some usable table row |
| Stimuli.UsableMembers | psychopy_exp.py:78-85 | a row is kept if and only if it is the normalised form of a usable table row |
| Stimuli.UsableEmotions | psychopy_exp.py:80-85 | every kept row's emotion cell holds `happy` or `sad` and is already in normal form |
| Stimuli.UsableIdempotent | psychopy_exp.py:78-85 | loading the loaded rows again yields them unchanged |
| Shuffle.Permute | psychopy_exp.py:154 | the shuffled list has the permutation's length, and position i holds the row at index perm[i] |
| Shuffle.PermuteAppend | psychopy_exp.py:154 | permuting by a concatenation of index lists is the concatenation of the permuted parts |
| Shuffle.RemoveTop | psychopy_exp.py:154 | a permutation of 0..n-1 holds n-1 somewhere; without it, it is a permutation of 0..n-2 |
| Shuffle.PermuteMultiset | psychopy_exp.py:152-154 | shuffling is a permutation: it keeps every row exactly as often as before (without replacement) |
| Shuffle.PrefixSubMultiset | psychopy_exp.py:162 | a truncated list holds no row more often than the full list |
| Shuffle.PermutationInjective | psychopy_exp.py:152-154 | a shuffle never takes the same position twice |
| Shuffle.RepeatCount | psychopy_exp.py:152-154 | an element at two different positions occurs at least twice |
| TrialSelection.SelectTrials | psychopy_exp.py:153-162 | error `NotEnoughUnique(79, n)` exactly when fewer than 79 rows; otherwise exactly 79 rows, the first 79 of the shuffle, drawn without replacement |
| Shuffle.NoRepeatsCounts | psychopy_exp.py:152 | in a list with no repeated row, every row occurs at most once |
| TrialSelection.SelectionHasNoRepeats | psychopy_exp.py:152-162 | if no row of the loaded table appears twice, no row appears twice among the selected trials |
| TrialSelection.SelectionHasDistinctFiles | psychopy_exp.py:152-162 | if no image file is listed twice among the loaded rows, no image appears twice among the selected trials |
| TrialSelection.SelectedFromRows | psychopy_exp.py:153-162 | every selected trial is one of the loaded rows |
| Practice.Matches | psychopy_exp.py:98 | the `match` test: emotion cell equal and lower-cased source equal; TargetsDisjoint and PicksMatchTargets state its use |
| Practice.Pool | psychopy_exp.py:97-98 | `match(emo, src)`; its members are stated by PoolMembers |
| Practice.PoolMembers | psychopy_exp.py:97-98 | a row is in a target's pool if and only if it is an input row whose emotion and lower-cased source are the target's |
| Practice.Remaining | psychopy_exp.py:109 | `remaining`; its members are stated by RemainingMembers |
| Practice.RemainingMembers | psychopy_exp.py:109 | a row remains if and only if it is an input row not already picked |
| Practice.RemainingCount | psychopy_exp.py:109 | a row remains exactly as often as it occurs in the input when it was not picked, and never when it was |
| Practice.RemainingSize | psychopy_exp.py:109 | without repeated input rows, removing the picks removes at most as many rows as were picked |
| Practice.Choice | psychopy_exp.py:105 | `random.choice` returns a member of the pool |
| Practice.Take | psychopy_exp.py:111-113 | a slice `[:n]`: the first min(n, length) elements |
| Practice.TargetPools | psychopy_exp.py:101-103 | one pool per target |
| Practice.TargetPoolsAt | psychopy_exp.py:101-103 | pool t is `match` of the t-th target (happy/ai, happy/non-ai, sad/ai, sad/non-ai) |
| Practice.Picks | psychopy_exp.py:102-105 | after n pools, at most n rows are picked |
| Practice.TargetPicks | psychopy_exp.py:100-105 | the picks of the target loop; stated by PickTargets, FoundTargetsExact, PicksMatchTargets and PicksDistinct |
| Practice.PickTargets | psychopy_exp.py:100-105 | the target loop yields exactly the picks the model defines, at most four |
| Practice.PickPractice | psychopy_exp.py:95-113 | the function returns exactly the practice list the model defines, at most four rows |
| Practice.PicksCount | psychopy_exp.py:102-105 | exactly one row is picked per non-empty pool |
| Practice.FoundInOrder | psychopy_exp.py:102-105 | picks are made in pool order: the found positions are strictly increasing and below n |
| Practice.FoundExact | psychopy_exp.py:102-105 | a pool contributes a pick if and only if it is non-empty |
| Practice.PickIsChoice | psychopy_exp.py:102-105 | the j-th pick is the random choice from the j-th non-empty pool |
| Practice.AllFoundPicks | psychopy_exp.py:102-105 | with every pool non-empty, pick t is the choice from pool t, and there are exactly n picks |
| Practice.FoundTargetsExact | psychopy_exp.py:97-105 | one pick per found target, the found targets in target order, and a target is found if and only if some input row matches it |
| Practice.PicksMatchTargets | psychopy_exp.py:97-105 | each pick is an input row matching the emotion and source of its target |
| Practice.TargetsDisjoint | psychopy_exp.py:101 | no row matches two different targets |
| Practice.PicksDistinct | psychopy_exp.py:100-105 | the target picks are pairwise different rows |
| Practice.Assemble | psychopy_exp.py:107-113 | the top-up and `[:4]`; stated by AssembleSplit |
| Practice.PracticeRows | psychopy_exp.py:95-113 | the returned list; stated by PickPractice, PracticeShape and AllTargetsFound |
| Practice.AssembleSplit | psychopy_exp.py:107-113 | the result is the picks followed by fillers; picks and fillers together number four, or the picks plus all remaining rows when that is fewer; the fillers are a prefix of the shuffled remaining rows and a sub-multiset of them (sampling without replacement), each an input row not among the picks |
| Practice.AssembleShape | psychopy_exp.py:107-113 | for any picks drawn from the input: the exact length min(4, picks + remaining), all rows from the input, the picks first, and the rows after them a without-replacement sample of the remaining rows, none of them a pick |
| Practice.PracticeShape | psychopy_exp.py:95-113 | exactly min(4, picks + remaining) rows, all from the input, beginning with the target picks; the rows after them are topped up as a without-replacement sample of the rows not picked, none repeating a pick |
| Practice.TargetPicksFromRows | psychopy_exp.py:101-105 | the target picks are input rows, at most four of them |
| Practice.FourPracticeRows | psychopy_exp.py:107-113 | with no row listed twice and at least four rows, practice has exactly four rows, the four images lines 164 and 209 announce |
| Practice.AllTargetsFound | psychopy_exp.py:95-113 | when all four pools are non-empty, exactly four practice rows, one per emotion×source combination, in target order |
| TrialLoop.Score | psychopy_exp.py:274-292 | timeout: empty key and RT, incorrect; a quit key ends the run; a key press records key and RT and is correct exactly for happy+right or sad+left; correctness is blank exactly for a non-task emotion |
| TrialLoop.InstructedKey | psychopy_exp.py:41-42 | the key the constants and the instructions (lines 199-200) give for an emotion; used by ScoreFollowsInstructions and ShownTrialsScored |
| TrialLoop.TrialStep | psychopy_exp.py:231-304 | a trial stops the loop exactly on a pending quit key or a quit response to a shown image; a logged entry carries the trial index and filename; a missing-file entry has blank source, gender, emotion, resp_key, rt and correct; a shown entry carries source, gender, the normalised emotion, and exactly the key, RT and correctness Score gives for the response |
| TrialLoop.ScoreFollowsInstructions | psychopy_exp.py:281-285 | a non-quit key press for a task emotion is correct exactly when it is the instructed key |
| TrialLoop.OneCorrectKey | psychopy_exp.py:41-42 | for both task emotions exactly one of the two response keys is scored correct |
| TrialLoop.DocstringMappingScoredIncorrect | psychopy_exp.py:7-9 | answering with the docstring's mapping (LEFT happy, RIGHT sad) is always scored incorrect |
| TrialLoop.LogFrom | psychopy_exp.py:231-304 | the entries the loop logs from a trial position on; stated by LogFromLength, LogFromEntry and LogFromEnd |
| TrialLoop.TrialLog | psychopy_exp.py:231-304 | the entries a whole run logs; stated by TrialLogShape, QuitEndsLoop, TrialLogPrefix and ShownTrialsScored, and produced by RunTrials |
| TrialLoop.LogFromLength | psychopy_exp.py:231-304 | the loop logs at most one entry per remaining trial |
| TrialLoop.LogFromEntry | psychopy_exp.py:231-304 | entry k of the log from position i is the entry of trial i+k, whose trial index is i+k+1 |
| TrialLoop.LogFromEnd | psychopy_exp.py:231-304 | the trial just past the last entry, if there is one, stopped the loop |
| TrialLoop.TrialLogShape | psychopy_exp.py:231-304 | at most one entry per trial, in trial order, with 1-based indices and the trial's filename; if there are fewer entries than trials, the next trial stopped the loop |
| TrialLoop.MissingImageLogged | psychopy_exp.py:242-251 | a trial whose image is missing is logged with missing_file set and empty resp_key, rt and correct |
| TrialLoop.QuitEndsLoop | psychopy_exp.py:232-277 | a quit at trial q leaves exactly the log of the first q trials: no entry for it or any later trial |
| TrialLoop.TrialLogPrefix | psychopy_exp.py:231-304 | running the first m trials logs a prefix of the full run's log |
| TrialLoop.ShownTrialsScored | psychopy_exp.py:253-292 | for trials with task emotions, every shown trial's entry has that emotion and `correct` is true exactly when the response was the instructed key |
| TrialLoop.ExperimentLog.constructor | psychopy_exp.py:185-192 | a new experiment handler holds no entries |
| TrialLoop.ExperimentLog.AddEntry | psychopy_exp.py:295-304 | `addData` … `nextEntry` appends exactly one entry |
| TrialLoop.RunTrial | psychopy_exp.py:232-304 | one iteration: reports stop exactly when the trial stops the loop, and otherwise appends exactly that trial's entry |
| TrialLoop.LogFromLogged | psychopy_exp.py:231-304 | a trial that is logged moves its entry from the entries still to come onto those already logged, the whole run's entries staying the same |
| TrialLoop.RunTrials | psychopy_exp.py:231-304 | the loop appends exactly the entries the trial log defines to the handler's earlier entries |
| Session.SelectedTrialsUsable | psychopy_exp.py:150-162 | every selected trial has a task emotion already in normal form |
| Session.LoadedRunScoresShownTrials | psychopy_exp.py:150-304 | in a run over the selected trials, no shown trial has a blank `correct` cell, and it is true exactly for the instructed key |

## Left out

- Drawing, timing and waiting (`show_text`, `draw_fixation`, window set-up, fixation and inter-trial durations, the practice display at lines 209–222): presentation only; they change no modelled data.
- The participant dialog (lines 134–145): the participant and session strings are inputs, and cancelling the dialog is outside the model.
- CSV parsing by `data.importConditions`: the table is an input list of rows, each a map from column name to string. `str()` of non-string cells is not modelled.
- `os.path.isfile` and `os.makedirs`: the file system's answers are inputs (`csvExists`, each trial's `imageExists`), and directory creation is a side effect outside the model.
- `datetime.now().strftime(...)`: the stamp is an opaque string without `/`.
- `random.shuffle` and `random.choice`: their outcomes are inputs (an index permutation, a number per target). The distribution itself is not modelled.
- Unicode: `strip`, `lower` and `isalnum` are modelled on ASCII only. Non-ASCII letters and digits are dropped by the model's sanitiser; Python would keep them.
- `os.path.join` is modelled for a second part that does not start with `/`. An absolute second part, which would discard the first, never occurs here because sanitised names contain no `/`. Platform separators other than `/` are not modelled.
- ResultsPath.PathLayout and ResultsPath.RunDirInjective: stated for a non-empty stamp without `/`, as `strftime("%Y%m%d_%H%M%S")` always produces.
- The reaction time `float(t)` is an opaque value, and floating point is not modelled.
- The response key is any string. `event.waitKeys(keyList=...)` limits it to the two response keys and escape, and the model does not rely on that limit.
- `ExperimentHandler`: only the list of entries is modelled. One `Entry` stands for the group of `addData` calls before each `nextEntry`. `extraInfo`, the pickle file, `saveAsWideText` and `abort` (lines 313–320) are saving and I/O.
- Practice.Picks: its own contract states only the bound on the number of picks. Their content is stated by PicksCount, PickIsChoice, FoundTargetsExact and PicksMatchTargets.
