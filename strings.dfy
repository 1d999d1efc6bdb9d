/** The parts of Python's `str` type that the naming rules of the meeting
    assistant rely on: `strip()`, `lower()`, `endswith()` and `replace()`. */
module Strings {

  /** The characters Python's `str.isspace()` accepts, which are the ones a
      no-argument `str.strip()` removes. */
  predicate IsSpace(c: char) {
    || ('\t' <= c <= '\r')
    || ('\U{1C}' <= c <= ' ')
    || c == '\U{85}' || c == '\U{A0}' || c == '\U{1680}'
    || ('\U{2000}' <= c <= '\U{200A}')
    || c == '\U{2028}' || c == '\U{2029}' || c == '\U{202F}'
    || c == '\U{205F}' || c == '\U{3000}'
  }

  predicate AllSpace(s: string) {
    forall i :: 0 <= i < |s| ==> IsSpace(s[i])
  }

  /** Every character of `s` from index `lo` up to (not including) `hi` is
      whitespace. */
  predicate SpaceBetween(s: string, lo: int, hi: int) {
    forall k :: 0 <= lo <= k < hi <= |s| ==> IsSpace(s[k])
  }

  /** No whitespace at either end: what `strip()` leaves behind. */
  predicate Trimmed(s: string) {
    s != [] ==> !IsSpace(s[0]) && !IsSpace(s[|s| - 1])
  }

  /** The forward scan of `strip()`: the first index from `i` on that does not
      hold whitespace, or `|s|`. */
  function SkipSpaces(s: string, i: nat): (r: nat)
    requires i <= |s|
    ensures i <= r <= |s|
    ensures SpaceBetween(s, i, r)
    ensures r < |s| ==> !IsSpace(s[r])
    decreases |s| - i
  {
    if i < |s| && IsSpace(s[i]) then SkipSpaces(s, i + 1) else i
  }

  /** The backward scan of `strip()`: stepping down from `j` but not below
      `lo`, the end of the last character that is not whitespace. */
  function SkipSpacesBack(s: string, lo: nat, j: nat): (r: nat)
    requires lo <= j <= |s|
    ensures lo <= r <= j
    ensures SpaceBetween(s, r, j)
    ensures r > lo ==> !IsSpace(s[r - 1])
    decreases j
  {
    if j > lo && IsSpace(s[j - 1]) then SkipSpacesBack(s, lo, j - 1) else j
  }

  /** Where the text kept by `s.strip()` starts. */
  function StripStart(s: string): nat {
    SkipSpaces(s, 0)
  }

  /** Where the text kept by `s.strip()` ends. */
  function StripEnd(s: string): nat {
    SkipSpacesBack(s, StripStart(s), |s|)
  }

  /** `s.strip()`. */
  function Strip(s: string): string {
    s[StripStart(s)..StripEnd(s)]
  }

  /** `strip()` removes whitespace, and only whitespace, from both ends: the
      result is a slice of `s` with nothing but whitespace around it, and it
      does not itself start or end with whitespace. */
  lemma {:induction false} StripIsTrimmedInfix(s: string)
    ensures StripStart(s) <= StripEnd(s) <= |s|
    ensures Strip(s) == s[StripStart(s)..StripEnd(s)]
    ensures SpaceBetween(s, 0, StripStart(s)) && SpaceBetween(s, StripEnd(s), |s|)
    ensures Trimmed(Strip(s))
  {
    var i, j := StripStart(s), StripEnd(s);
    if i < j {
      assert Strip(s)[0] == s[i];
      assert Strip(s)[j - i - 1] == s[j - 1];
    }
  }

  /** The forward scan is determined by where the whitespace ends. */
  lemma {:induction false} SkipSpacesAt(s: string, i: nat, n: nat)
    requires i <= n <= |s| && SpaceBetween(s, i, n) && (n < |s| ==> !IsSpace(s[n]))
    ensures SkipSpaces(s, i) == n
  {
  }

  /** The backward scan is determined by where the whitespace starts. */
  lemma {:induction false} SkipSpacesBackAt(s: string, lo: nat, j: nat, n: nat)
    requires lo <= n <= j <= |s| && SpaceBetween(s, n, j) && (n > lo ==> !IsSpace(s[n - 1]))
    ensures SkipSpacesBack(s, lo, j) == n
  {
  }

  /** The converse of StripIsTrimmedInfix: whatever trimmed text is padded
      with whitespace, `strip()` gives back exactly that text. */
  lemma {:induction false} StripOfPadded(pre: string, r: string, post: string)
    requires AllSpace(pre) && AllSpace(post) && Trimmed(r)
    ensures Strip(pre + r + post) == r
  {
    var s := pre + r + post;
    if r == [] {
      assert SpaceBetween(s, 0, |s|) by {
        forall k | 0 <= k < |s| ensures IsSpace(s[k]) {
          if k < |pre| { assert s[k] == pre[k]; } else { assert s[k] == post[k - |pre|]; }
        }
      }
      SkipSpacesAt(s, 0, |s|);
      assert s[|s|..|s|] == [];
    } else {
      var i, j := |pre|, |pre| + |r|;
      assert SpaceBetween(s, 0, i) by {
        forall k | 0 <= k < i ensures IsSpace(s[k]) { assert s[k] == pre[k]; }
      }
      assert s[i] == r[0];
      SkipSpacesAt(s, 0, i);
      assert SpaceBetween(s, j, |s|) by {
        forall k | j <= k < |s| ensures IsSpace(s[k]) { assert s[k] == post[k - j]; }
      }
      assert s[j - 1] == r[|r| - 1];
      SkipSpacesBackAt(s, i, |s|, j);
      assert s[i..j] == r;
    }
  }

  /** Stripping twice is stripping once. */
  lemma {:induction false} StripIdempotent(s: string)
    ensures Strip(Strip(s)) == Strip(s)
  {
    StripIsTrimmedInfix(s);
    var r := Strip(s);
    assert [] + r + [] == r;
    StripOfPadded([], r, []);
  }

  /** `strip()` gives the empty string exactly for blank input. */
  lemma {:induction false} StripEmptyIffBlank(s: string)
    ensures Strip(s) == [] <==> AllSpace(s)
  {
    StripIsTrimmedInfix(s);
    var i, j := StripStart(s), StripEnd(s);
    if Strip(s) == [] {
      assert i == j;
      forall k | 0 <= k < |s| ensures IsSpace(s[k]) {
        if k < i { assert SpaceBetween(s, 0, i); } else { assert SpaceBetween(s, j, |s|); }
      }
    } else if AllSpace(s) {
      SkipSpacesAt(s, 0, |s|);
    }
  }

  /** `c.lower()` for the ASCII letters; every other character is kept. */
  function LowerChar(c: char): char {
    if 'A' <= c <= 'Z' then (c as int - 'A' as int + 'a' as int) as char else c
  }

  /** `s.lower()`, character by character. */
  function Lower(s: string): string {
    seq(|s|, i requires 0 <= i < |s| => LowerChar(s[i]))
  }

  /** `s.endswith(suffix)`. */
  predicate EndsWith(s: string, suffix: string) {
    |suffix| <= |s| && s[|s| - |suffix|..] == suffix
  }

  /** `pat` occurs in `s` starting at index `i`. */
  predicate OccursAt(s: string, pat: string, i: int) {
    0 <= i && i + |pat| <= |s| && s[i..i + |pat|] == pat
  }

  predicate Occurs(s: string, pat: string) {
    exists i :: 0 <= i <= |s| - |pat| && OccursAt(s, pat, i)
  }

  /** The first `|pat| - k` characters of `pat` equal its last ones. */
  predicate BorderAt(pat: string, k: int)
    requires 0 <= k <= |pat|
  {
    pat[k..] == pat[..|pat| - k]
  }

  /** No proper prefix of `pat` is also a suffix of it, so two occurrences of
      `pat` can never overlap. */
  predicate Unbordered(pat: string) {
    forall k :: 0 < k < |pat| ==> !BorderAt(pat, k)
  }

  /** `s.replace(pat, rep)`: every occurrence of `pat`, found scanning from the
      left and never overlapping an earlier one, is replaced by `rep`. */
  function ReplaceAll(s: string, pat: string, rep: string): string
    requires pat != []
    decreases |s|
  {
    if |s| < |pat| then s
    else if s[..|pat|] == pat then rep + ReplaceAll(s[|pat|..], pat, rep)
    else [s[0]] + ReplaceAll(s[1..], pat, rep)
  }

  /** Text in which `pat` does not occur comes back from `replace` unchanged. */
  lemma {:induction false} ReplaceAllAbsent(s: string, pat: string, rep: string)
    requires pat != [] && !Occurs(s, pat)
    ensures ReplaceAll(s, pat, rep) == s
  {
    if |s| >= |pat| {
      assert !OccursAt(s, pat, 0);
      if Occurs(s[1..], pat) {
        var i :| 0 <= i <= |s[1..]| - |pat| && OccursAt(s[1..], pat, i);
        assert s[i + 1..i + 1 + |pat|] == s[1..][i..i + |pat|];
        assert OccursAt(s, pat, i + 1);
        assert false;
      }
      ReplaceAllAbsent(s[1..], pat, rep);
    }
  }

  /** A prefix containing no character `pat` starts with passes through
      `replace` untouched. */
  lemma {:induction false} ReplaceAllSkipsPrefix(x: string, y: string, pat: string, rep: string)
    requires pat != [] && pat[0] !in x
    ensures ReplaceAll(x + y, pat, rep) == x + ReplaceAll(y, pat, rep)
  {
    if x == [] {
      assert x + y == y;
    } else {
      var s := x + y;
      if |s| >= |pat| {
        assert s[..|pat|][0] == x[0];
        assert s[..|pat|] != pat;
        assert s[1..] == x[1..] + y;
        ReplaceAllSkipsPrefix(x[1..], y, pat, rep);
        assert ReplaceAll(s, pat, rep) == [x[0]] + (x[1..] + ReplaceAll(y, pat, rep));
        assert x == [x[0]] + x[1..];
      } else {
        assert ReplaceAll(y, pat, rep) == y;
      }
    }
  }

  /** The scan cannot find an unbordered pattern starting inside a text
      shorter than it when the pattern itself follows that text. */
  lemma {:induction false} NoMatchStraddling(x: string, z: string, pat: string)
    requires Unbordered(pat) && 0 < |x| < |pat|
    ensures (x + pat + z)[..|pat|] != pat
  {
    var s := x + pat + z;
    var k := |x|;
    assert s[..|pat|][k..] == s[k..|pat|] == pat[..|pat| - k];
    assert !BorderAt(pat, k);
  }

  /** One step of the scan over `x + pat + y` when `x` does not start with
      `pat`: the first character is kept. */
  lemma {:induction false} ReplaceAllAroundSkip(x: string, y: string, pat: string, rep: string)
    requires pat != [] && Unbordered(pat) && x != []
    requires !(|x| >= |pat| && x[..|pat|] == pat)
    requires ReplaceAll(x[1..] + pat + y, pat, rep)
          == ReplaceAll(x[1..], pat, rep) + rep + ReplaceAll(y, pat, rep)
    ensures ReplaceAll(x + pat + y, pat, rep)
         == ReplaceAll(x, pat, rep) + rep + ReplaceAll(y, pat, rep)
  {
    var s := x + pat + y;
    var tail := rep + ReplaceAll(y, pat, rep);
    assert s[..|pat|] != pat by {
      if |x| < |pat| {
        NoMatchStraddling(x, y, pat);
      } else {
        assert s[..|pat|] == x[..|pat|];
      }
    }
    calc {
      ReplaceAll(s, pat, rep);
      == { ReplaceAllKeepsHead(s, pat, rep); TailOfConcat(x, pat, y); }
      [x[0]] + ReplaceAll(x[1..] + pat + y, pat, rep);
      [x[0]] + (ReplaceAll(x[1..], pat, rep) + tail);
      ([x[0]] + ReplaceAll(x[1..], pat, rep)) + tail;
      == { ReplaceAllKeepsHead(x, pat, rep); }
      ReplaceAll(x, pat, rep) + tail;
    }
  }

  lemma {:induction false} TailOfConcat(a: string, b: string, c: string)
    requires a != []
    ensures (a + b + c)[1..] == a[1..] + b + c
  {
  }

  /** A text that does not start with `pat` keeps its first character. */
  lemma {:induction false} ReplaceAllKeepsHead(s: string, pat: string, rep: string)
    requires pat != [] && s != []
    requires !(|s| >= |pat| && s[..|pat|] == pat)
    ensures ReplaceAll(s, pat, rep) == [s[0]] + ReplaceAll(s[1..], pat, rep)
  {
    if |s| < |pat| {
      assert ReplaceAll(s[1..], pat, rep) == s[1..];
      assert s == [s[0]] + s[1..];
    }
  }

  /** One step of the scan over `x + pat + y` when `x` starts with `pat`:
      that occurrence is replaced. */
  lemma {:induction false} ReplaceAllAroundMatch(x: string, y: string, pat: string, rep: string)
    requires pat != [] && |x| >= |pat| && x[..|pat|] == pat
    requires ReplaceAll(x[|pat|..] + pat + y, pat, rep)
          == ReplaceAll(x[|pat|..], pat, rep) + rep + ReplaceAll(y, pat, rep)
    ensures ReplaceAll(x + pat + y, pat, rep)
         == ReplaceAll(x, pat, rep) + rep + ReplaceAll(y, pat, rep)
  {
    var s := x + pat + y;
    var tail := rep + ReplaceAll(y, pat, rep);
    assert s[..|pat|] == x[..|pat|];
    assert s[|pat|..] == x[|pat|..] + pat + y;
    calc {
      ReplaceAll(s, pat, rep);
      rep + ReplaceAll(x[|pat|..] + pat + y, pat, rep);
      rep + (ReplaceAll(x[|pat|..], pat, rep) + tail);
      (rep + ReplaceAll(x[|pat|..], pat, rep)) + tail;
    }
  }

  /** An occurrence of an unbordered pattern splits `replace` in two: the
      scan from the left reaches that occurrence exactly, replaces it, and
      carries on after it. */
  lemma {:induction false} ReplaceAllAround(x: string, y: string, pat: string, rep: string)
    requires pat != [] && Unbordered(pat)
    ensures ReplaceAll(x + pat + y, pat, rep)
         == ReplaceAll(x, pat, rep) + rep + ReplaceAll(y, pat, rep)
    decreases |x|
  {
    if x == [] {
      var s := x + pat + y;
      assert s == pat + y;
      assert s[..|pat|] == pat && s[|pat|..] == y;
    } else if |x| >= |pat| && x[..|pat|] == pat {
      ReplaceAllAround(x[|pat|..], y, pat, rep);
      ReplaceAllAroundMatch(x, y, pat, rep);
    } else {
      ReplaceAllAround(x[1..], y, pat, rep);
      ReplaceAllAroundSkip(x, y, pat, rep);
    }
  }

  /** The special case used for file names: a name ending in the pattern
      keeps a replaced ending. */
  lemma {:induction false} ReplaceAllOfSuffixed(x: string, pat: string, rep: string)
    requires pat != [] && Unbordered(pat)
    ensures ReplaceAll(x + pat, pat, rep) == ReplaceAll(x, pat, rep) + rep
  {
    ReplaceAllAround(x, [], pat, rep);
    assert x + pat + [] == x + pat;
    assert ReplaceAll([], pat, rep) == [];
  }

  /** A replacement shorter than the pattern never lengthens the text, and
      shortens it whenever the pattern occurs. */
  lemma {:induction false} ReplaceAllShorter(s: string, pat: string, rep: string)
    requires pat != [] && |rep| < |pat|
    ensures |ReplaceAll(s, pat, rep)| <= |s|
    ensures Occurs(s, pat) ==> |ReplaceAll(s, pat, rep)| < |s|
    decreases |s|
  {
    if |s| >= |pat| {
      if s[..|pat|] == pat {
        ReplaceAllShorter(s[|pat|..], pat, rep);
      } else {
        ReplaceAllShorter(s[1..], pat, rep);
        if Occurs(s, pat) {
          var i :| 0 <= i <= |s| - |pat| && OccursAt(s, pat, i);
          assert i != 0;
          assert s[1..][i - 1..i - 1 + |pat|] == s[i..i + |pat|];
          assert OccursAt(s[1..], pat, i - 1);
        }
      }
    }
  }

  /** `replace` introduces no character that neither `s` nor `rep` has. */
  lemma {:induction false} ReplaceAllKeepsCharOut(s: string, pat: string, rep: string, c: char)
    requires pat != [] && c !in s && c !in rep
    ensures c !in ReplaceAll(s, pat, rep)
  {
    if |s| >= |pat| {
      if s[..|pat|] == pat {
        ReplaceAllKeepsCharOut(s[|pat|..], pat, rep, c);
      } else {
        ReplaceAllKeepsCharOut(s[1..], pat, rep, c);
      }
    }
  }

  /** A pattern whose first character appears nowhere else in it is
      unbordered. */
  lemma {:induction false} UniqueHeadUnbordered(pat: string)
    requires pat != [] && forall k :: 0 < k < |pat| ==> pat[k] != pat[0]
    ensures Unbordered(pat)
  {
    forall k | 0 < k < |pat|
      ensures !BorderAt(pat, k)
    {
      assert pat[k..][0] == pat[k];
      assert pat[..|pat| - k][0] == pat[0];
    }
  }

  /** A text that contains `pat` also contains every prefix of `pat`. */
  lemma {:induction false} OccursPrefix(s: string, pat: string, n: nat)
    requires n <= |pat| && Occurs(s, pat)
    ensures Occurs(s, pat[..n])
  {
    var i :| 0 <= i <= |s| - |pat| && OccursAt(s, pat, i);
    assert s[i..i + n] == s[i..i + |pat|][..n];
    assert OccursAt(s, pat[..n], i);
  }
}
