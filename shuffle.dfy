/** `random.shuffle` as the permutation it applies: a sequence `perm` listing each index below
    `n` exactly once, so that position `i` of the shuffled list holds element `perm[i]` of the
    original. Which permutation the generator picks is an input to the model. */
module Shuffle {

  predicate InRange(perm: seq<nat>, n: nat) {
    forall i :: 0 <= i < |perm| ==> perm[i] < n
  }

  /** `perm` has length `n`, holds only indices below `n`, and each of them exactly once. */
  predicate IsPermutation(perm: seq<nat>, n: nat) {
    && |perm| == n
    && InRange(perm, n)
    && forall x: nat :: x < n ==> multiset(perm)[x] == 1
  }

  /** The list `s` rearranged by `perm`. */
  function Permute<T>(s: seq<T>, perm: seq<nat>): (r: seq<T>)
    requires InRange(perm, |s|)
    ensures |r| == |perm|
    ensures forall i :: 0 <= i < |perm| ==> r[i] == s[perm[i]]
  {
    seq(|perm|, i requires 0 <= i < |perm| => s[perm[i]])
  }

  lemma PermuteAppend<T>(s: seq<T>, a: seq<nat>, b: seq<nat>)
    requires InRange(a, |s|) && InRange(b, |s|)
    ensures InRange(a + b, |s|)
    ensures Permute(s, a + b) == Permute(s, a) + Permute(s, b)
  {
    assert InRange(a + b, |s|) by {
      forall i | 0 <= i < |a + b| ensures (a + b)[i] < |s| {
        if i >= |a| { assert (a + b)[i] == b[i - |a|]; }
      }
    }
  }

  lemma PermuteInit<T>(s: seq<T>, q: seq<nat>)
    requires |s| > 0 && InRange(q, |s| - 1)
    ensures Permute(s, q) == Permute(s[..|s| - 1], q)
  {
  }

  lemma RemoveAt(s: seq<nat>, k: nat)
    requires k < |s|
    ensures |s[..k] + s[k + 1..]| == |s| - 1
    ensures multiset(s[..k] + s[k + 1..]) == multiset(s) - multiset{s[k]}
  {
    assert s == s[..k] + [s[k]] + s[k + 1..];
  }

  /** The position of the largest index in a permutation; without it, what is left is a
      permutation of the smaller range. */
  lemma RemoveTop(perm: seq<nat>, n: nat) returns (k: nat)
    requires n > 0 && IsPermutation(perm, n)
    ensures k < |perm| && perm[k] == n - 1
    ensures IsPermutation(perm[..k] + perm[k + 1..], n - 1)
  {
    var top: nat := n - 1;
    assert multiset(perm)[top] == 1;
    k :| 0 <= k < |perm| && perm[k] == top;
    var rest := perm[..k] + perm[k + 1..];
    RemoveAt(perm, k);
    assert multiset(rest)[top] == 0;
    assert forall x: nat :: x < n - 1 ==> multiset(rest)[x] == 1;
    forall i | 0 <= i < |rest| ensures rest[i] < n - 1 {
      assert rest[i] in multiset(rest);
      assert rest[i] in perm;
    }
  }

  /** Taking out the position that holds the last element splits the shuffled list into that
      element and the shuffle of the rest. */
  lemma PermuteWithout<T>(s: seq<T>, perm: seq<nat>, k: nat)
    requires |s| > 0 && InRange(perm, |s|)
    requires k < |perm| && perm[k] == |s| - 1
    requires InRange(perm[..k] + perm[k + 1..], |s| - 1)
    ensures multiset(Permute(s, perm)) ==
            multiset(Permute(s[..|s| - 1], perm[..k] + perm[k + 1..])) + multiset{s[|s| - 1]}
  {
    var n := |s|;
    var before, after := perm[..k], perm[k + 1..];
    var rest := before + after;
    var init := s[..n - 1];
    assert InRange(before, n - 1) by {
      forall i | 0 <= i < |before| ensures before[i] < n - 1 { assert before[i] == rest[i]; }
    }
    assert InRange(after, n - 1) by {
      forall i | 0 <= i < |after| ensures after[i] < n - 1 { assert after[i] == rest[|before| + i]; }
    }
    var mid: seq<nat> := [n - 1];
    assert perm == before + mid + after;
    PermuteAppend(s, before, mid);
    PermuteAppend(s, before + mid, after);
    PermuteInit(s, before);
    PermuteInit(s, after);
    PermuteAppend(init, before, after);
    assert Permute(s, mid) == [s[n - 1]];
  }

  /** Shuffling keeps every element exactly as often as before: the result is a permutation
      of the input. */
  lemma {:induction false} PermuteMultiset<T>(s: seq<T>, perm: seq<nat>)
    requires IsPermutation(perm, |s|)
    ensures multiset(Permute(s, perm)) == multiset(s)
    decreases |s|
  {
    var n := |s|;
    if n == 0 {
      assert Permute(s, perm) == [];
    } else {
      var k := RemoveTop(perm, n);
      var init := s[..n - 1];
      PermuteMultiset(init, perm[..k] + perm[k + 1..]);
      PermuteWithout(s, perm, k);
      assert s == init + [s[n - 1]];
    }
  }

  /** A prefix of a list never holds an element more often than the list. */
  lemma PrefixSubMultiset<T>(s: seq<T>, k: nat)
    requires k <= |s|
    ensures multiset(s[..k]) <= multiset(s)
  {
    assert s == s[..k] + s[k..];
  }

  /** No element is listed twice. */
  predicate NoRepeats<T(==)>(s: seq<T>) {
    forall i, j :: 0 <= i < j < |s| ==> s[i] != s[j]
  }

  /** In a list without repeats, each element occurs at most once. */
  lemma {:induction false} NoRepeatsCounts<T>(s: seq<T>, x: T)
    requires NoRepeats(s)
    ensures multiset(s)[x] <= 1
  {
    if s != [] {
      assert s == [s[0]] + s[1..];
      NoRepeatsCounts(s[1..], x);
      if x == s[0] {
        assert x !in s[1..];
      }
    }
  }

  /** Two equal positions make their element occur at least twice. */
  lemma RepeatCount<T>(s: seq<T>, i: nat, j: nat)
    requires i < j < |s|
    ensures s[i] == s[j] ==> multiset(s)[s[i]] >= 2
  {
    assert s == s[..i] + [s[i]] + s[i + 1..j] + [s[j]] + s[j + 1..];
  }

  /** A permutation never lists the same index twice. */
  lemma PermutationInjective(perm: seq<nat>, n: nat, i: nat, j: nat)
    requires IsPermutation(perm, n) && i < j < |perm|
    ensures perm[i] != perm[j]
  {
    RepeatCount(perm, i, j);
  }
}
