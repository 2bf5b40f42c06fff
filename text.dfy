/** The three Python `str` operations the experiment script relies on, restricted to ASCII:
    `strip()` with no argument, `lower()` and `isalnum()`. */
module Text {

  /** `str.isspace()` on ASCII: tab, line feed, vertical tab, form feed, carriage return
      (9-13), the file/group/record/unit separators (28-31) and space (32). */
  predicate IsSpace(c: char) {
    (9 <= c as int <= 13) || (28 <= c as int <= 32)
  }

  predicate IsUpper(c: char) {
    'A' <= c <= 'Z'
  }

  /** `str.isalnum()` on ASCII: a decimal digit or a Latin letter. */
  predicate IsAsciiAlnum(c: char) {
    ('0' <= c <= '9') || ('a' <= c <= 'z') || ('A' <= c <= 'Z')
  }

  /** No whitespace at either end: what `strip()` leaves behind. */
  predicate Trimmed(s: string) {
    s == [] || (!IsSpace(s[0]) && !IsSpace(s[|s| - 1]))
  }

  /** Drops leading whitespace; the result is the suffix of `s` starting at its first non-space. */
  function StripLeft(s: string): (r: string)
    ensures |r| <= |s|
    ensures r == [] || !IsSpace(r[0])
  {
    if s != [] && IsSpace(s[0]) then StripLeft(s[1..]) else s
  }

  /** Drops trailing whitespace; the result is the prefix of `s` ending at its last non-space. */
  function StripRight(s: string): (r: string)
    ensures |r| <= |s|
    ensures r == [] || !IsSpace(r[|r| - 1])
  {
    if s != [] && IsSpace(s[|s| - 1]) then StripRight(s[..|s| - 1]) else s
  }

  /** What `StripLeft` removes is a run of whitespace at the front. */
  lemma {:induction false} StripLeftSuffix(s: string)
    ensures StripLeft(s) == s[|s| - |StripLeft(s)|..]
    ensures forall i :: 0 <= i < |s| - |StripLeft(s)| ==> IsSpace(s[i])
  {
    if s != [] && IsSpace(s[0]) {
      StripLeftSuffix(s[1..]);
    }
  }

  /** What `StripRight` removes is a run of whitespace at the back. */
  lemma {:induction false} StripRightPrefix(s: string)
    ensures StripRight(s) == s[..|StripRight(s)|]
    ensures forall i :: |StripRight(s)| <= i < |s| ==> IsSpace(s[i])
  {
    if s != [] && IsSpace(s[|s| - 1]) {
      StripRightPrefix(s[..|s| - 1]);
    }
  }

  /** Python's `s.strip()`. */
  function Strip(s: string): (r: string)
    ensures Trimmed(r)
    ensures |r| <= |s|
  {
    StripRightPrefix(StripLeft(s));
    StripRight(StripLeft(s))
  }

  function LowerChar(c: char): char {
    if IsUpper(c) then (c as int + 32) as char else c
  }

  /** Python's `s.lower()`: upper-case Latin letters become lower case, everything else stays. */
  function Lower(s: string): (r: string)
    ensures |r| == |s|
  {
    seq(|s|, i requires 0 <= i < |s| => LowerChar(s[i]))
  }

  /** After `lower()` every upper-case letter has become its lower-case letter (`'A'` to `'a'`,
      32 code points on), no upper-case letter is left, and every other character is unchanged. */
  lemma LowerSpec(s: string)
    ensures forall i :: 0 <= i < |s| ==> !IsUpper(Lower(s)[i])
    ensures forall i :: 0 <= i < |s| && IsUpper(s[i]) ==> Lower(s)[i] as int == s[i] as int + 32
    ensures forall i :: 0 <= i < |s| && !IsUpper(s[i]) ==> Lower(s)[i] == s[i]
  {
  }

  /** A string already in `strip().lower()` form is left unchanged by it. */
  lemma NormalFormFixed(s: string)
    requires Trimmed(s)
    requires forall i :: 0 <= i < |s| ==> !IsUpper(s[i])
    ensures Lower(Strip(s)) == s
  {
    assert StripLeft(s) == s;
    assert StripRight(s) == s;
    LowerSpec(s);
  }

  /** `strip().lower()` is idempotent. */
  lemma StripLowerIdempotent(s: string)
    ensures Lower(Strip(Lower(Strip(s)))) == Lower(Strip(s))
  {
    var t := Lower(Strip(s));
    LowerSpec(Strip(s));
    forall i | 0 <= i < |t| ensures IsSpace(t[i]) <==> IsSpace(Strip(s)[i]) {
    }
    NormalFormFixed(t);
  }
}
