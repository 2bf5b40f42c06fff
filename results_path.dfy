/** `ensure_results_path`: the participant and session names are filtered down to a safe
    alphabet (with a fallback when nothing survives), then placed in fixed templates for the
    run directory `RESULTS_DIR/sub-P/ses-S/stamp` and the base file name
    `sub-P_ses-S_stamp` inside it. Directory creation and the clock are not modelled: the
    results directory and the run stamp are parameters. */
module ResultsPath {
  import opened Text

  const ParticipantFallback: string := "anon"
  const SessionFallback: string := "001"

  /** A character the sanitiser keeps: `ch.isalnum() or ch in ("-", "_")`. */
  predicate IsAllowed(c: char) {
    IsAsciiAlnum(c) || c == '-' || c == '_'
  }

  predicate AllAllowed(s: string) {
    forall i :: 0 <= i < |s| ==> IsAllowed(s[i])
  }

  /** The generator `"".join(ch for ch in name if <allowed>)`. */
  function KeepAllowed(s: string): (r: string)
    ensures AllAllowed(r)
    ensures |r| <= |s|
  {
    if s == [] then []
    else if IsAllowed(s[0]) then [s[0]] + KeepAllowed(s[1..])
    else KeepAllowed(s[1..])
  }

  /** `KeepAllowed(name) or fallback`: with a non-empty, all-allowed fallback the result is
      a non-empty name of allowed characters only. */
  function SafeName(name: string, fallback: string): (r: string)
    ensures fallback != [] && AllAllowed(fallback) ==> r != [] && AllAllowed(r)
    ensures KeepAllowed(name) != [] ==> r == KeepAllowed(name)
    ensures KeepAllowed(name) == [] ==> r == fallback
  {
    var kept := KeepAllowed(name);
    if kept == [] then fallback else kept
  }

  function SafeParticipant(participant: string): string {
    SafeName(participant, ParticipantFallback)
  }

  function SafeSession(session: string): string {
    SafeName(session, SessionFallback)
  }

  /** `os.path.join(a, b)` for a `b` that does not start with `/`: `b` alone after an empty
      `a`, no separator added after an `a` that already ends in `/`, one `/` otherwise. */
  function PathJoin(a: string, b: string): string {
    if a == [] then b
    else if a[|a| - 1] == '/' then a + b
    else a + "/" + b
  }

  /** The participant directory `sub-{P}`. */
  function SubjectDir(participant: string): string {
    "sub-" + SafeParticipant(participant)
  }

  /** The session directory `ses-{S}`. */
  function SessionDir(session: string): string {
    "ses-" + SafeSession(session)
  }

  /** `os.path.join(RESULTS_DIR, f"sub-{P}", f"ses-{S}", run_stamp)`. */
  function RunDir(resultsDir: string, participant: string, session: string, stamp: string): string {
    PathJoin(PathJoin(PathJoin(resultsDir, SubjectDir(participant)), SessionDir(session)), stamp)
  }

  /** The base file name `sub-{P}_ses-{S}_{run_stamp}`. */
  function BaseName(participant: string, session: string, stamp: string): string {
    SubjectDir(participant) + "_" + SessionDir(session) + "_" + stamp
  }

  /** The value `ensure_results_path` returns: the base name inside the run directory. */
  function EnsureResultsPath(resultsDir: string, participant: string, session: string, stamp: string): string {
    PathJoin(RunDir(resultsDir, participant, session, stamp), BaseName(participant, session, stamp))
  }

  // ---------------------------------------------------------------------------
  // Splitting a path on '/', as `str.split("/")` does; used to read a layout back.

  function Split(s: string): (parts: seq<string>)
    ensures |parts| >= 1
  {
    if s == [] then [[]]
    else if s[0] == '/' then [[]] + Split(s[1..])
    else
      var rest := Split(s[1..]);
      [[s[0]] + rest[0]] + rest[1..]
  }

  lemma {:induction false} SplitNoSlash(s: string)
    requires '/' !in s
    ensures Split(s) == [s]
  {
    if s != [] {
      SplitNoSlash(s[1..]);
      assert [s[0]] + s[1..] == s;
    }
  }

  lemma {:induction false} SplitConcat(a: string, b: string)
    ensures Split(a + "/" + b) == Split(a) + Split(b)
  {
    if a == [] {
      assert a + "/" + b == "/" + b;
      assert ("/" + b)[1..] == b;
    } else {
      assert (a + "/" + b)[0] == a[0];
      assert (a + "/" + b)[1..] == a[1..] + "/" + b;
      SplitConcat(a[1..], b);
    }
  }

  /** The components a directory contributes to a path joined onto it: none for the empty
      directory, and no empty last component for a directory ending in `/`. */
  function DirParts(d: string): seq<string> {
    if d == [] then []
    else if d[|d| - 1] == '/' then Split(d[..|d| - 1])
    else Split(d)
  }

  /** Read back on '/', a joined path is the directory's components followed by those of the
      joined part. */
  lemma SplitJoin(a: string, b: string)
    ensures Split(PathJoin(a, b)) == DirParts(a) + Split(b)
  {
    if a != [] {
      if a[|a| - 1] == '/' {
        assert a + b == a[..|a| - 1] + "/" + b;
        SplitConcat(a[..|a| - 1], b);
      } else {
        SplitConcat(a, b);
      }
    }
  }

  /** Joining a single component `b` onto `a` adds exactly that component, and the result is a
      directory whose components are those of the joined path. */
  lemma JoinComponent(a: string, b: string)
    requires b != [] && '/' !in b
    ensures Split(PathJoin(a, b)) == DirParts(a) + [b]
    ensures DirParts(PathJoin(a, b)) == Split(PathJoin(a, b))
  {
    SplitJoin(a, b);
    SplitNoSlash(b);
    var p := PathJoin(a, b);
    assert p[|p| - 1] == b[|b| - 1];
    assert b[|b| - 1] in b;
  }

  // ---------------------------------------------------------------------------
  // Properties of the sanitiser.

  /** The sanitiser drops exactly the characters outside the allowed alphabet. */
  lemma {:induction false} KeepAllowedCounts(s: string, c: char)
    ensures IsAllowed(c) ==> multiset(KeepAllowed(s))[c] == multiset(s)[c]
    ensures !IsAllowed(c) ==> multiset(KeepAllowed(s))[c] == 0
  {
    if s != [] {
      KeepAllowedCounts(s[1..], c);
      assert s == [s[0]] + s[1..];
    }
  }

  /** `a` is a subsequence of `b`: the characters of `a` occur in `b` in the same order. */
  predicate IsSubsequence(a: string, b: string)
    decreases |b|
  {
    if a == [] then true
    else if b == [] then false
    else (a[0] == b[0] && IsSubsequence(a[1..], b[1..])) || IsSubsequence(a, b[1..])
  }

  /** The sanitiser keeps the surviving characters in their original order. */
  lemma {:induction false} KeepAllowedInOrder(s: string)
    ensures IsSubsequence(KeepAllowed(s), s)
  {
    if s != [] {
      KeepAllowedInOrder(s[1..]);
      if IsAllowed(s[0]) {
        assert ([s[0]] + KeepAllowed(s[1..]))[1..] == KeepAllowed(s[1..]);
      }
    }
  }

  /** A name made only of allowed characters comes back unchanged, and only such a name does. */
  lemma {:induction false} KeepAllowedFixed(s: string)
    ensures KeepAllowed(s) == s <==> AllAllowed(s)
  {
    if s != [] {
      KeepAllowedFixed(s[1..]);
      if !IsAllowed(s[0]) {
        assert |KeepAllowed(s)| < |s|;
      } else {
        assert s == [s[0]] + s[1..];
      }
    }
  }

  lemma {:induction false} KeepAllowedAppend(a: string, b: string)
    ensures KeepAllowed(a + b) == KeepAllowed(a) + KeepAllowed(b)
  {
    if a == [] {
      assert a + b == b;
    } else {
      assert (a + b)[0] == a[0];
      assert (a + b)[1..] == a[1..] + b;
      KeepAllowedAppend(a[1..], b);
    }
  }

  lemma {:induction false} KeepAllowedStripLeft(s: string)
    ensures KeepAllowed(StripLeft(s)) == KeepAllowed(s)
  {
    if s != [] && IsSpace(s[0]) {
      KeepAllowedStripLeft(s[1..]);
    }
  }

  lemma {:induction false} KeepAllowedStripRight(s: string)
    ensures KeepAllowed(StripRight(s)) == KeepAllowed(s)
  {
    if s != [] && IsSpace(s[|s| - 1]) {
      var init := s[..|s| - 1];
      KeepAllowedStripRight(init);
      assert s == init + [s[|s| - 1]];
      KeepAllowedAppend(init, [s[|s| - 1]]);
      assert KeepAllowed([s[|s| - 1]]) == [];
    }
  }

  /** `main` strips the dialog's participant and session before sanitising; whitespace is
      never an allowed character, so the strip does not change the sanitised name. */
  lemma StripIrrelevant(name: string, fallback: string)
    ensures SafeName(Strip(name), fallback) == SafeName(name, fallback)
  {
    KeepAllowedStripLeft(name);
    KeepAllowedStripRight(StripLeft(name));
  }

  /** A sanitised name is never empty and holds only allowed characters, for both fallbacks. */
  lemma SafeNamesWellFormed(participant: string, session: string)
    ensures SafeParticipant(participant) != [] && AllAllowed(SafeParticipant(participant))
    ensures SafeSession(session) != [] && AllAllowed(SafeSession(session))
  {
  }

  /** Sanitising is idempotent. */
  lemma SafeNameIdempotent(name: string, fallback: string)
    requires fallback != [] && AllAllowed(fallback)
    ensures SafeName(SafeName(name, fallback), fallback) == SafeName(name, fallback)
  {
    KeepAllowedFixed(SafeName(name, fallback));
  }

  /** An allowed, non-empty name is used as it is, so no fallback hides it. */
  lemma SafeNameKeepsAllowed(name: string, fallback: string)
    requires name != [] && AllAllowed(name)
    ensures SafeName(name, fallback) == name
  {
    KeepAllowedFixed(name);
  }

  lemma SafeNameHasNoSlash(name: string, fallback: string)
    requires AllAllowed(fallback)
    ensures '/' !in SafeName(name, fallback)
  {
    var r := SafeName(name, fallback);
    assert forall i :: 0 <= i < |r| ==> r[i] != '/' by {
      assert AllAllowed(r);
    }
  }

  // ---------------------------------------------------------------------------
  // Properties of the path layout.

  lemma NamedDirsHaveNoSlash(participant: string, session: string, stamp: string)
    requires '/' !in stamp
    ensures '/' !in SubjectDir(participant)
    ensures '/' !in SessionDir(session)
    ensures '/' !in BaseName(participant, session, stamp)
  {
    SafeNameHasNoSlash(participant, ParticipantFallback);
    SafeNameHasNoSlash(session, SessionFallback);
  }

  /** Read back on '/', the run directory is the results directory followed by exactly the
      three components `sub-P`, `ses-S` and the stamp, and the returned path adds exactly one
      more component, the base file name. */
  lemma PathLayout(resultsDir: string, participant: string, session: string, stamp: string)
    requires stamp != [] && '/' !in stamp
    ensures Split(RunDir(resultsDir, participant, session, stamp)) ==
            DirParts(resultsDir) + [SubjectDir(participant), SessionDir(session), stamp]
    ensures Split(EnsureResultsPath(resultsDir, participant, session, stamp)) ==
            Split(RunDir(resultsDir, participant, session, stamp)) + [BaseName(participant, session, stamp)]
  {
    var sub, ses := SubjectDir(participant), SessionDir(session);
    NamedDirsHaveNoSlash(participant, session, stamp);
    var d1 := PathJoin(resultsDir, sub);
    JoinComponent(resultsDir, sub);
    var d2 := PathJoin(d1, ses);
    JoinComponent(d1, ses);
    var d3 := PathJoin(d2, stamp);
    JoinComponent(d2, stamp);
    assert d3 == RunDir(resultsDir, participant, session, stamp);
    JoinComponent(d3, BaseName(participant, session, stamp));
  }

  /** Two runs stamped alike in the same results directory get the same run directory only
      when their sanitised participant and session names agree. */
  lemma RunDirInjective(resultsDir: string, p1: string, s1: string, p2: string, s2: string, stamp: string)
    requires stamp != [] && '/' !in stamp
    requires RunDir(resultsDir, p1, s1, stamp) == RunDir(resultsDir, p2, s2, stamp)
    ensures SafeParticipant(p1) == SafeParticipant(p2)
    ensures SafeSession(s1) == SafeSession(s2)
  {
    PathLayout(resultsDir, p1, s1, stamp);
    PathLayout(resultsDir, p2, s2, stamp);
    var n := |DirParts(resultsDir)|;
    var parts := Split(RunDir(resultsDir, p1, s1, stamp));
    assert parts[n] == SubjectDir(p1) == SubjectDir(p2);
    assert parts[n + 1] == SessionDir(s1) == SessionDir(s2);
    assert SafeParticipant(p1) == SubjectDir(p1)[4..];
    assert SafeParticipant(p2) == SubjectDir(p2)[4..];
    assert SafeSession(s1) == SessionDir(s1)[4..];
    assert SafeSession(s2) == SessionDir(s2)[4..];
  }
}
