/** `pick_practice_examples`: one practice row per (emotion, source) target, in a fixed target
    order, for each target some row matches; if fewer than four were found, the rows not yet
    picked are shuffled and used to fill up; at most four rows are returned. `random.choice`
    is modelled by a chosen position per target (reduced modulo the pool size) and
    `random.shuffle` by a permutation. */
module Practice {
  import opened Text
  import opened Stimuli
  import opened Shuffle

  const PracticeCount: nat := 4

  datatype Target = Target(emotion: string, source: string)

  /** `targets`, in the order the loop visits them. */
  const Targets: seq<Target> :=
    [Target("happy", "ai"), Target("happy", "non-ai"), Target("sad", "ai"), Target("sad", "non-ai")]

  /** `r.get("emotion") == emo and str(r.get("source", "")).lower() == src`. */
  predicate Matches(row: Row, t: Target) {
    Get(row, "emotion") == t.emotion && Lower(Get(row, "source")) == t.source
  }

  /** `match(emo, src)`: the rows matching a target, in input order. */
  function Pool(rows: seq<Row>, t: Target): seq<Row> {
    if rows == [] then []
    else (if Matches(rows[0], t) then [rows[0]] else []) + Pool(rows[1..], t)
  }

  lemma {:induction false} PoolMembers(rows: seq<Row>, t: Target, x: Row)
    ensures x in Pool(rows, t) <==> x in rows && Matches(x, t)
  {
    if rows != [] {
      PoolMembers(rows[1..], t, x);
      assert rows == [rows[0]] + rows[1..];
    }
  }

  /** `[r for r in all_rows if r not in practice]`. */
  function Remaining(rows: seq<Row>, picked: seq<Row>): seq<Row> {
    if rows == [] then []
    else (if rows[0] !in picked then [rows[0]] else []) + Remaining(rows[1..], picked)
  }

  lemma {:induction false} RemainingMembers(rows: seq<Row>, picked: seq<Row>, x: Row)
    ensures x in Remaining(rows, picked) <==> x in rows && x !in picked
  {
    if rows != [] {
      RemainingMembers(rows[1..], picked, x);
      assert rows == [rows[0]] + rows[1..];
    }
  }

  /** `random.choice(pool)`: the element at the chosen position. */
  function Choice(pool: seq<Row>, c: nat): (x: Row)
    requires pool != []
    ensures x in pool
  {
    pool[c % |pool|]
  }

  /** `s[:n]`. */
  function Take(s: seq<Row>, n: nat): (r: seq<Row>)
    ensures |r| == if n <= |s| then n else |s|
    ensures r == s[..|r|]
  {
    if n <= |s| then s[..n] else s
  }

  /** The four pools `match(emo, src)` yields, in target order. */
  function TargetPools(rows: seq<Row>): (pools: seq<seq<Row>>)
    ensures |pools| == |Targets|
  {
    [Pool(rows, Targets[0]), Pool(rows, Targets[1]), Pool(rows, Targets[2]), Pool(rows, Targets[3])]
  }

  lemma TargetPoolsAt(rows: seq<Row>, t: nat)
    requires t < |Targets|
    ensures TargetPools(rows)[t] == Pool(rows, Targets[t])
  {
  }

  /** The picks the target loop has made after visiting the first `n` pools: one choice from
      each non-empty pool, in order. */
  function Picks(pools: seq<seq<Row>>, choices: seq<nat>, n: nat): (r: seq<Row>)
    requires n <= |pools| && n <= |choices|
    ensures |r| <= n
  {
    if n == 0 then []
    else Picks(pools, choices, n - 1) + (if pools[n - 1] == [] then [] else [Choice(pools[n - 1], choices[n - 1])])
  }

  /** The positions among the first `n` pools that are non-empty, in order. */
  function Found(pools: seq<seq<Row>>, n: nat): seq<nat>
    requires n <= |pools|
  {
    if n == 0 then []
    else Found(pools, n - 1) + (if pools[n - 1] == [] then [] else [n - 1])
  }

  /** The rows the target loop picks from `rows`. */
  function TargetPicks(rows: seq<Row>, choices: seq<nat>): seq<Row>
    requires |choices| == |Targets|
  {
    Picks(TargetPools(rows), choices, |Targets|)
  }

  /** The targets some row matches, in target order. */
  function FoundTargets(rows: seq<Row>): seq<nat> {
    Found(TargetPools(rows), |Targets|)
  }

  /** The shuffle input is a permutation of the rows left after `picks` whenever a shuffle
      happens. */
  predicate FillFits(rows: seq<Row>, picks: seq<Row>, perm: seq<nat>) {
    |picks| < PracticeCount ==> IsPermutation(perm, |Remaining(rows, picks)|)
  }

  /** The end of `pick_practice_examples` once `picks` are made: when fewer than four, top up
      from the shuffled rows not yet picked; then keep at most four. */
  function Assemble(rows: seq<Row>, picks: seq<Row>, perm: seq<nat>): seq<Row>
    requires FillFits(rows, picks, perm)
  {
    var filled :=
      if |picks| < PracticeCount
      then picks + Take(Permute(Remaining(rows, picks), perm), PracticeCount - |picks|)
      else picks;
    Take(filled, PracticeCount)
  }

  predicate ShuffleFits(rows: seq<Row>, choices: seq<nat>, perm: seq<nat>)
    requires |choices| == |Targets|
  {
    FillFits(rows, TargetPicks(rows, choices), perm)
  }

  /** The list `pick_practice_examples` returns. */
  function PracticeRows(rows: seq<Row>, choices: seq<nat>, perm: seq<nat>): seq<Row>
    requires |choices| == |Targets| && ShuffleFits(rows, choices, perm)
  {
    Assemble(rows, TargetPicks(rows, choices), perm)
  }

  /** The target loop: one random pick from each non-empty pool, in target order. */
  method PickTargets(allRows: seq<Row>, choices: seq<nat>) returns (picks: seq<Row>)
    requires |choices| == |Targets|
    ensures picks == TargetPicks(allRows, choices)
    ensures |picks| <= PracticeCount
  {
    picks := [];
    var i := 0;
    while i < |Targets|
      invariant 0 <= i <= |Targets|
      invariant picks == Picks(TargetPools(allRows), choices, i)
    {
      var pool := Pool(allRows, Targets[i]);
      TargetPoolsAt(allRows, i);
      if pool != [] {
        picks := picks + [Choice(pool, choices[i])];
      }
      i := i + 1;
    }
  }

  /** `pick_practice_examples`: the target picks, topped up from the shuffled rest when fewer
      than four targets were found. */
  method PickPractice(allRows: seq<Row>, choices: seq<nat>, perm: seq<nat>) returns (practice: seq<Row>)
    requires |choices| == |Targets| && ShuffleFits(allRows, choices, perm)
    ensures practice == PracticeRows(allRows, choices, perm)
    ensures |practice| <= PracticeCount
  {
    practice := PickTargets(allRows, choices);
    if |practice| < PracticeCount {
      var remaining := Remaining(allRows, practice);
      remaining := Permute(remaining, perm);
      practice := practice + Take(remaining, PracticeCount - |practice|);
    }
    practice := Take(practice, PracticeCount);
  }

  // ---------------------------------------------------------------------------
  // The pick loop over any pools.

  /** One pick per non-empty pool. */
  lemma {:induction false} PicksCount(pools: seq<seq<Row>>, choices: seq<nat>, n: nat)
    requires n <= |pools| && n <= |choices|
    ensures |Picks(pools, choices, n)| == |Found(pools, n)|
  {
    if n > 0 {
      PicksCount(pools, choices, n - 1);
    }
  }

  /** The found positions are listed in strictly increasing order. */
  lemma {:induction false} FoundInOrder(pools: seq<seq<Row>>, n: nat)
    requires n <= |pools|
    ensures forall j :: 0 <= j < |Found(pools, n)| ==> Found(pools, n)[j] < n
    ensures forall j, k :: 0 <= j < k < |Found(pools, n)| ==> Found(pools, n)[j] < Found(pools, n)[k]
  {
    if n > 0 {
      FoundInOrder(pools, n - 1);
      var found' := Found(pools, n - 1);
      var extra: seq<nat> := if pools[n - 1] == [] then [] else [n - 1];
      assert Found(pools, n) == found' + extra;
    }
  }

  /** The found positions are exactly those of the non-empty pools. */
  lemma {:induction false} FoundExact(pools: seq<seq<Row>>, n: nat)
    requires n <= |pools|
    ensures forall t :: 0 <= t < n ==> (t in Found(pools, n) <==> pools[t] != [])
  {
    if n > 0 {
      FoundExact(pools, n - 1);
      FoundInOrder(pools, n - 1);
      var found' := Found(pools, n - 1);
      var found := Found(pools, n);
      var extra: seq<nat> := if pools[n - 1] == [] then [] else [n - 1];
      assert found == found' + extra;
      forall t | 0 <= t < n ensures t in found <==> pools[t] != [] {
        assert t in found <==> t in found' || t in extra;
        if t == n - 1 {
          assert t !in found';
        } else {
          assert t !in extra;
        }
      }
    }
  }

  /** The `j`-th pick is the random choice from the `j`-th non-empty pool. */
  lemma {:induction false} PickIsChoice(pools: seq<seq<Row>>, choices: seq<nat>, n: nat, j: nat)
    requires n <= |pools| && n <= |choices|
    requires j < |Found(pools, n)| && j < |Picks(pools, choices, n)|
    ensures Found(pools, n)[j] < n
    ensures pools[Found(pools, n)[j]] != []
    ensures Picks(pools, choices, n)[j] == Choice(pools[Found(pools, n)[j]], choices[Found(pools, n)[j]])
  {
    PicksCount(pools, choices, n - 1);
    if pools[n - 1] == [] || j < |Found(pools, n - 1)| {
      PickIsChoice(pools, choices, n - 1, j);
    }
  }

  /** With every pool non-empty, the `t`-th pick is the choice from pool `t`. */
  lemma {:induction false} AllFoundPicks(pools: seq<seq<Row>>, choices: seq<nat>, n: nat)
    requires n <= |pools| && n <= |choices|
    requires forall t :: 0 <= t < |pools| ==> pools[t] != []
    ensures |Picks(pools, choices, n)| == n
    ensures forall t :: 0 <= t < n ==> Picks(pools, choices, n)[t] == Choice(pools[t], choices[t])
  {
    if n > 0 {
      AllFoundPicks(pools, choices, n - 1);
      assert Picks(pools, choices, n) == Picks(pools, choices, n - 1) + [Choice(pools[n - 1], choices[n - 1])];
    }
  }

  // ---------------------------------------------------------------------------
  // Properties of the target picks.

  /** A target is found exactly when some input row matches it; the found targets are in
      target order and each yields one pick. */
  lemma FoundTargetsExact(rows: seq<Row>, choices: seq<nat>)
    requires |choices| == |Targets|
    ensures |TargetPicks(rows, choices)| == |FoundTargets(rows)|
    ensures forall j, k :: 0 <= j < k < |FoundTargets(rows)| ==> FoundTargets(rows)[j] < FoundTargets(rows)[k]
    ensures forall t :: 0 <= t < |Targets| ==>
              (t in FoundTargets(rows) <==> exists x :: x in rows && Matches(x, Targets[t]))
  {
    var pools := TargetPools(rows);
    PicksCount(pools, choices, |Targets|);
    FoundInOrder(pools, |Targets|);
    FoundExact(pools, |Targets|);
    forall t | 0 <= t < |Targets|
      ensures t in FoundTargets(rows) <==> exists x :: x in rows && Matches(x, Targets[t])
    {
      TargetPoolsAt(rows, t);
      if pools[t] != [] {
        PoolMembers(rows, Targets[t], pools[t][0]);
      }
      forall x | x in rows && Matches(x, Targets[t]) ensures pools[t] != [] {
        PoolMembers(rows, Targets[t], x);
      }
    }
  }

  /** Each pick is an input row matching its target (the `j`-th found one). */
  lemma PicksMatchTargets(rows: seq<Row>, choices: seq<nat>)
    requires |choices| == |Targets|
    ensures |TargetPicks(rows, choices)| == |FoundTargets(rows)|
    ensures forall j :: 0 <= j < |TargetPicks(rows, choices)| ==>
              FoundTargets(rows)[j] < |Targets| &&
              TargetPicks(rows, choices)[j] in rows &&
              Matches(TargetPicks(rows, choices)[j], Targets[FoundTargets(rows)[j]])
  {
    var pools := TargetPools(rows);
    var picks, found := TargetPicks(rows, choices), FoundTargets(rows);
    PicksCount(pools, choices, |Targets|);
    forall j | 0 <= j < |picks|
      ensures found[j] < |Targets| && picks[j] in rows && Matches(picks[j], Targets[found[j]])
    {
      PickIsChoice(pools, choices, |Targets|, j);
      TargetPoolsAt(rows, found[j]);
      PoolMembers(rows, Targets[found[j]], picks[j]);
    }
  }

  /** The four targets are pairwise different in emotion or source, so no row matches two. */
  lemma TargetsDisjoint(row: Row, t: nat, u: nat)
    requires t < u < |Targets|
    ensures !(Matches(row, Targets[t]) && Matches(row, Targets[u]))
  {
  }

  /** The target picks are pairwise different rows. */
  lemma PicksDistinct(rows: seq<Row>, choices: seq<nat>)
    requires |choices| == |Targets|
    ensures forall j, k :: 0 <= j < k < |TargetPicks(rows, choices)| ==>
              TargetPicks(rows, choices)[j] != TargetPicks(rows, choices)[k]
  {
    var picks, found := TargetPicks(rows, choices), FoundTargets(rows);
    PicksMatchTargets(rows, choices);
    FoundInOrder(TargetPools(rows), |Targets|);
    forall j, k | 0 <= j < k < |picks| ensures picks[j] != picks[k] {
      TargetsDisjoint(picks[j], found[j], found[k]);
    }
  }

  // ---------------------------------------------------------------------------
  // Properties of the returned list.

  /** The returned list is the picks topped up to four, or to as many rows as there are, by
      filler rows sampled without replacement from the shuffled rows that were not picked. */
  lemma AssembleSplit(rows: seq<Row>, picks: seq<Row>, perm: seq<nat>) returns (fill: seq<Row>)
    requires FillFits(rows, picks, perm) && |picks| <= PracticeCount
    ensures Assemble(rows, picks, perm) == picks + fill
    ensures |picks| + |fill| ==
              if |picks| + |Remaining(rows, picks)| < PracticeCount
              then |picks| + |Remaining(rows, picks)| else PracticeCount
    ensures |picks| < PracticeCount ==> fill <= Permute(Remaining(rows, picks), perm)
    ensures multiset(fill) <= multiset(Remaining(rows, picks))
    ensures forall x :: x in fill ==> x in rows && x !in picks
  {
    if |picks| < PracticeCount {
      var left := Remaining(rows, picks);
      var shuffled := Permute(left, perm);
      PermuteMultiset(left, perm);
      fill := Take(shuffled, PracticeCount - |picks|);
      PrefixSubMultiset(shuffled, |fill|);
      forall x | x in fill ensures x in rows && x !in picks {
        assert x in multiset(shuffled);
        RemainingMembers(rows, picks, x);
      }
    } else {
      fill := [];
    }
  }

  /** For any picks drawn from the input: the returned list holds four rows, or all the picks
      and remaining rows when fewer, all from the input; the picks lead, and the rows after
      them are a sample without replacement of the rows not picked. */
  lemma AssembleShape(rows: seq<Row>, picks: seq<Row>, perm: seq<nat>)
    requires FillFits(rows, picks, perm) && |picks| <= PracticeCount
    requires forall x :: x in picks ==> x in rows
    ensures |Assemble(rows, picks, perm)| ==
              if |picks| + |Remaining(rows, picks)| < PracticeCount
              then |picks| + |Remaining(rows, picks)| else PracticeCount
    ensures forall x :: x in Assemble(rows, picks, perm) ==> x in rows
    ensures picks <= Assemble(rows, picks, perm)
    ensures multiset(Assemble(rows, picks, perm)[|picks|..]) <= multiset(Remaining(rows, picks))
    ensures forall j :: |picks| <= j < |Assemble(rows, picks, perm)| ==>
              Assemble(rows, picks, perm)[j] !in picks
  {
    var fill := AssembleSplit(rows, picks, perm);
    ConcatShape(rows, picks, fill);
  }

  /** Picks from the input followed by fillers from the input that are not picks. */
  lemma ConcatShape(rows: seq<Row>, picks: seq<Row>, fill: seq<Row>)
    requires forall x :: x in picks ==> x in rows
    requires forall x :: x in fill ==> x in rows && x !in picks
    ensures forall x :: x in picks + fill ==> x in rows
    ensures picks <= picks + fill && (picks + fill)[|picks|..] == fill
    ensures forall j :: |picks| <= j < |picks + fill| ==> (picks + fill)[j] !in picks
  {
    var r := picks + fill;
    assert r[|picks|..] == fill;
    forall x | x in r ensures x in rows {
      assert x in picks || x in fill;
    }
    forall j | |picks| <= j < |r| ensures r[j] !in picks {
      assert r[j] == fill[j - |picks|];
    }
  }

  /** The target picks are input rows, at most one per target. */
  lemma TargetPicksFromRows(rows: seq<Row>, choices: seq<nat>)
    requires |choices| == |Targets|
    ensures |TargetPicks(rows, choices)| <= PracticeCount
    ensures forall x :: x in TargetPicks(rows, choices) ==> x in rows
  {
    var picks := TargetPicks(rows, choices);
    PicksMatchTargets(rows, choices);
    forall x | x in picks ensures x in rows {
      var j :| 0 <= j < |picks| && picks[j] == x;
    }
  }

  /** Four rows, or all the rows there are when fewer, all from the input; the target picks
      lead, and the filler rows that follow them are a sample without replacement of the rows
      not picked. */
  lemma PracticeShape(rows: seq<Row>, choices: seq<nat>, perm: seq<nat>)
    requires |choices| == |Targets| && ShuffleFits(rows, choices, perm)
    ensures |PracticeRows(rows, choices, perm)| ==
              var n := |TargetPicks(rows, choices)| + |Remaining(rows, TargetPicks(rows, choices))|;
              if n < PracticeCount then n else PracticeCount
    ensures forall x :: x in PracticeRows(rows, choices, perm) ==> x in rows
    ensures TargetPicks(rows, choices) <= PracticeRows(rows, choices, perm)
    ensures multiset(PracticeRows(rows, choices, perm)[|TargetPicks(rows, choices)|..]) <=
              multiset(Remaining(rows, TargetPicks(rows, choices)))
    ensures forall j :: |TargetPicks(rows, choices)| <= j < |PracticeRows(rows, choices, perm)| ==>
              PracticeRows(rows, choices, perm)[j] !in TargetPicks(rows, choices)
  {
    TargetPicksFromRows(rows, choices);
    AssembleShape(rows, TargetPicks(rows, choices), perm);
  }

  /** Each row remains as often as it occurs in the input, unless it was picked. */
  lemma {:induction false} RemainingCount(rows: seq<Row>, picked: seq<Row>, x: Row)
    ensures multiset(Remaining(rows, picked))[x] == if x in picked then 0 else multiset(rows)[x]
  {
    if rows != [] {
      RemainingCount(rows[1..], picked, x);
      assert rows == [rows[0]] + rows[1..];
    }
  }

  lemma SubMultisetSize(a: multiset<Row>, b: multiset<Row>)
    requires a <= b
    ensures |a| <= |b|
  {
    var d := b - a;
    assert a + d == b;
  }

  /** Without repeated rows, taking out the picked rows removes at most as many rows as were
      picked. */
  lemma RemainingSize(rows: seq<Row>, picked: seq<Row>)
    requires NoRepeats(rows)
    ensures |rows| <= |Remaining(rows, picked)| + |picked|
  {
    var a, b := multiset(rows), multiset(Remaining(rows, picked)) + multiset(picked);
    forall x ensures a[x] <= b[x] {
      NoRepeatsCounts(rows, x);
      RemainingCount(rows, picked, x);
      if x in picked {
        assert x in multiset(picked);
      }
    }
    SubMultisetSize(a, b);
  }

  /** With no row listed twice and at least four rows, practice has exactly four rows. */
  lemma FourPracticeRows(rows: seq<Row>, choices: seq<nat>, perm: seq<nat>)
    requires |choices| == |Targets| && ShuffleFits(rows, choices, perm)
    requires NoRepeats(rows) && PracticeCount <= |rows|
    ensures |PracticeRows(rows, choices, perm)| == PracticeCount
  {
    PracticeShape(rows, choices, perm);
    RemainingSize(rows, TargetPicks(rows, choices));
  }

  /** When every target has a matching row, practice is exactly one pick per target, in target
      order, each the random choice among that target's matching rows. */
  lemma AllTargetsFound(rows: seq<Row>, choices: seq<nat>, perm: seq<nat>)
    requires |choices| == |Targets| && ShuffleFits(rows, choices, perm)
    requires forall t :: 0 <= t < |Targets| ==> Pool(rows, Targets[t]) != []
    ensures |PracticeRows(rows, choices, perm)| == PracticeCount
    ensures forall t :: 0 <= t < |Targets| ==>
              PracticeRows(rows, choices, perm)[t] == Choice(Pool(rows, Targets[t]), choices[t])
  {
    var pools := TargetPools(rows);
    forall t | 0 <= t < |pools| ensures pools[t] != [] {
      TargetPoolsAt(rows, t);
    }
    AllFoundPicks(pools, choices, |Targets|);
    forall t | 0 <= t < |Targets|
      ensures PracticeRows(rows, choices, perm)[t] == Choice(Pool(rows, Targets[t]), choices[t])
    {
      TargetPoolsAt(rows, t);
    }
  }
}
