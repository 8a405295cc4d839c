/**
 * The semantics of Python's `re.sub(pattern, repl, s)` for the patterns used by the core.
 *
 * A pattern is given as a matcher: a function that, asked at position `i` of the ORIGINAL
 * string `s`, returns where the leftmost match starting at `i` ends and what replaces it,
 * or None. `Sub` scans left to right: after a match it resumes at the match's end, so
 * matches never overlap, and anchors such as MULTILINE `^` keep looking at the original
 * string. None of the core's patterns can match the empty string, so a match always
 * consumes at least one character.
 */
module Rewrite {
  import opened Wrappers
  import opened Text

  /** A match found at some position: the index just past it, and its replacement text. */
  datatype Match = Match(end: nat, replacement: string)

  /** A matcher returns the match of the pattern that starts at position `i` of `s`, if any. */
  type Matcher = (string, nat) -> Option<Match>

  /** The matcher reports a non-empty match at `i` that lies inside `s`. */
  predicate Fires(m: Matcher, s: string, i: nat)
  {
    i < |s| && m(s, i).Some? && i < m(s, i).value.end <= |s|
  }

  /** `re.sub` applied to the suffix of `s` that starts at `i`. */
  function Sub(s: string, i: nat, m: Matcher): string
    decreases |s| - i
  {
    if i >= |s| then ""
    else if Fires(m, s, i) then m(s, i).value.replacement + Sub(s, m(s, i).value.end, m)
    else [s[i]] + Sub(s, i + 1, m)
  }

  /** The scan past the end of the text produces nothing. */
  lemma SubAtEnd(s: string, i: nat, m: Matcher)
    requires i >= |s|
    ensures Sub(s, i, m) == ""
  {
  }

  /** One step of the scan where the pattern fires. */
  lemma SubFires(s: string, i: nat, m: Matcher)
    requires Fires(m, s, i)
    ensures Sub(s, i, m) == m(s, i).value.replacement + Sub(s, m(s, i).value.end, m)
  {
  }

  /** One step of the scan over a known match. */
  lemma SubMatch(s: string, i: nat, m: Matcher, end: nat, replacement: string)
    requires i < end <= |s| && m(s, i) == Some(Match(end, replacement))
    ensures Sub(s, i, m) == replacement + Sub(s, end, m)
  {
  }

  /** One step of the scan where the pattern does not fire. */
  lemma SubSkip(s: string, i: nat, m: Matcher)
    requires i < |s| && !Fires(m, s, i)
    ensures Sub(s, i, m) == [s[i]] + Sub(s, i + 1, m)
  {
  }

  /**
   * Two scans that copy the same character and then agree, agree: the step shared by
   * proofs that relate the scan of a text to the scan of a piece of it.
   */
  lemma SkipBoth(s: string, n: nat, n1: nat, t: string, j: nat, j1: nat, m: Matcher)
    requires n < |s| && !Fires(m, s, n)
    requires j < |t| && !Fires(m, t, j)
    requires s[n] == t[j]
    requires n1 == n + 1 && j1 == j + 1
    requires Sub(s, n1, m) == Sub(t, j1, m)
    ensures Sub(s, n, m) == Sub(t, j, m)
  {
    SubSkip(s, n, m);
    SubSkip(t, j, m);
  }

  /** Two scans that replace a match by the same text and then agree, agree. */
  lemma MatchBoth(s: string, n: nat, e: nat, t: string, j: nat, f: nat, m: Matcher, replacement: string)
    requires n < e <= |s| && m(s, n) == Some(Match(e, replacement))
    requires j < f <= |t| && m(t, j) == Some(Match(f, replacement))
    requires Sub(s, e, m) == Sub(t, f, m)
    ensures Sub(s, n, m) == Sub(t, j, m)
  {
    SubMatch(s, n, m, e, replacement);
    SubMatch(t, j, m, f, replacement);
  }

  /** Where the pattern never fires, the substitution returns the text unchanged. */
  lemma {:induction false} SubUnchanged(s: string, i: nat, m: Matcher)
    requires i <= |s|
    requires forall j: nat :: i <= j < |s| ==> !Fires(m, s, j)
    ensures Sub(s, i, m) == s[i..]
    decreases |s| - i
  {
    if i < |s| {
      SubSkip(s, i, m);
      SubUnchanged(s, i + 1, m);
      assert s[i..] == [s[i]] + s[i + 1..];
    }
  }

  /** A stretch where the pattern never fires is copied as it is. */
  lemma {:induction false} SubCopies(s: string, i: nat, j: nat, m: Matcher)
    requires i <= j <= |s|
    requires forall k: nat :: i <= k < j ==> !Fires(m, s, k)
    ensures Sub(s, i, m) == s[i..j] + Sub(s, j, m)
    decreases j - i
  {
    if i < j {
      SubSkip(s, i, m);
      SubCopies(s, i + 1, j, m);
      CopyStep(s, i, j, Sub(s, i + 1, m), Sub(s, j, m));
    }
  }

  lemma CopyStep(s: string, i: nat, j: nat, t: string, u: string)
    requires i < j <= |s| && t == s[i + 1..j] + u
    ensures [s[i]] + t == s[i..j] + u
  {
    assert s[i..j] == [s[i]] + s[i + 1..j];
  }

  /**
   * When the first match of the text is of `s[i..e]` at `i`, the result is the text before
   * it, the replacement, and the result of the scan resumed at `e`.
   */
  lemma FirstMatch(s: string, m: Matcher, i: nat, e: nat, replacement: string)
    requires i < e <= |s| && m(s, i) == Some(Match(e, replacement))
    requires forall k: nat :: k < i ==> !Fires(m, s, k)
    ensures Sub(s, 0, m) == s[..i] + replacement + Sub(s, e, m)
  {
    SubCopies(s, 0, i, m);
    assert s[0..i] == s[..i];
    SubMatch(s, i, m, e, replacement);
    assert Sub(s, 0, m) == s[..i] + (replacement + Sub(s, e, m));
  }

  /**
   * A text with exactly one match, of `s[i..e]` at `i`, is the text before it, the
   * replacement, and the text after it.
   */
  lemma OneMatch(s: string, m: Matcher, i: nat, e: nat, replacement: string)
    requires i < e <= |s| && m(s, i) == Some(Match(e, replacement))
    requires forall k: nat :: k < i ==> !Fires(m, s, k)
    requires forall k: nat :: e <= k < |s| ==> !Fires(m, s, k)
    ensures Sub(s, 0, m) == s[..i] + replacement + s[e..]
  {
    SubCopies(s, 0, i, m);
    assert s[0..i] == s[..i];
    SubMatch(s, i, m, e, replacement);
    SubUnchanged(s, e, m);
  }

  /** If no replacement is longer than the text it replaces, the result is no longer than the input. */
  lemma {:induction false} SubShrinks(s: string, i: nat, m: Matcher)
    requires i <= |s|
    requires forall j: nat :: i <= j && Fires(m, s, j) ==> |m(s, j).value.replacement| <= m(s, j).value.end - j
    ensures |Sub(s, i, m)| <= |s| - i
    decreases |s| - i
  {
    if i < |s| {
      if Fires(m, s, i) {
        SubShrinks(s, m(s, i).value.end, m);
      } else {
        SubShrinks(s, i + 1, m);
      }
    }
  }

  /** If every replacement has the length of the text it replaces, the result has the input's length. */
  lemma {:induction false} SubKeepsLength(s: string, i: nat, m: Matcher)
    requires i <= |s|
    requires forall j: nat :: i <= j && Fires(m, s, j) ==> |m(s, j).value.replacement| == m(s, j).value.end - j
    ensures |Sub(s, i, m)| == |s| - i
    decreases |s| - i
  {
    if i < |s| {
      if Fires(m, s, i) {
        SubKeepsLength(s, m(s, i).value.end, m);
      } else {
        SubKeepsLength(s, i + 1, m);
      }
    }
  }

  /** If every replacement only changes whitespace, the substitution only changes whitespace. */
  lemma {:induction false} SubKeepsWords(s: string, i: nat, m: Matcher)
    requires i <= |s|
    requires forall j: nat :: i <= j && Fires(m, s, j) ==>
      RemoveSpace(m(s, j).value.replacement) == RemoveSpace(s[j..m(s, j).value.end])
    ensures RemoveSpace(Sub(s, i, m)) == RemoveSpace(s[i..])
    decreases |s| - i
  {
    if i < |s| {
      if Fires(m, s, i) {
        var e := m(s, i).value.end;
        SubKeepsWords(s, e, m);
        KeepsWordsFires(s, i, m, e);
      } else {
        SubKeepsWords(s, i + 1, m);
        KeepsWordsSkips(s, i, m);
      }
    }
  }

  lemma KeepsWordsFires(s: string, i: nat, m: Matcher, e: nat)
    requires Fires(m, s, i) && e == m(s, i).value.end
    requires RemoveSpace(m(s, i).value.replacement) == RemoveSpace(s[i..e])
    requires RemoveSpace(Sub(s, e, m)) == RemoveSpace(s[e..])
    ensures RemoveSpace(Sub(s, i, m)) == RemoveSpace(s[i..])
  {
    SubFires(s, i, m);
    assert s[i..] == s[i..e] + s[e..];
    WordsStep(m(s, i).value.replacement, Sub(s, e, m), s[i..e], s[e..]);
  }

  lemma KeepsWordsSkips(s: string, i: nat, m: Matcher)
    requires i < |s| && !Fires(m, s, i)
    requires RemoveSpace(Sub(s, i + 1, m)) == RemoveSpace(s[i + 1..])
    ensures RemoveSpace(Sub(s, i, m)) == RemoveSpace(s[i..])
  {
    SubSkip(s, i, m);
    assert s[i..] == [s[i]] + s[i + 1..];
    WordsStep([s[i]], Sub(s, i + 1, m), [s[i]], s[i + 1..]);
  }

  /** Two pieces that each agree with their counterpart up to whitespace agree when joined. */
  lemma WordsStep(a: string, b: string, x: string, y: string)
    requires RemoveSpace(a) == RemoveSpace(x) && RemoveSpace(b) == RemoveSpace(y)
    ensures RemoveSpace(a + b) == RemoveSpace(x + y)
  {
    RemoveSpaceConcat(a, b);
    RemoveSpaceConcat(x, y);
  }

  // ---- Building blocks of the patterns ----

  /**
   * The number of consecutive characters from position `i` on that satisfy `p`: what a
   * greedy `x*` over that character class consumes.
   */
  function CountRun(s: string, i: nat, p: char -> bool): (n: nat)
    ensures i + n <= |s| || n == 0
    ensures forall j :: i <= j < i + n ==> p(s[j])
    ensures i + n >= |s| || !p(s[i + n])
    decreases |s| - i
  {
    if i < |s| && p(s[i]) then 1 + CountRun(s, i + 1, p) else 0
  }

  /** A run of exactly `n` characters satisfying `p`, followed by one that does not, is counted as `n`. */
  lemma {:induction false} CountRunIs(s: string, i: nat, p: char -> bool, n: nat)
    requires i + n <= |s|
    requires forall j :: i <= j < i + n ==> p(s[j])
    requires i + n == |s| || !p(s[i + n])
    ensures CountRun(s, i, p) == n
    decreases n
  {
    if n > 0 {
      CountRunIs(s, i + 1, p, n - 1);
    }
  }

  /** `^` under re.MULTILINE: the start of the string or just after a `\n`. */
  predicate LineStart(s: string, i: nat)
  {
    i == 0 || (i <= |s| && s[i - 1] == '\n')
  }

  /**
   * A lazy `.*?` starting at `j` followed by a closing pattern: the first position `k >= j`
   * where `close` holds, provided no `\n` lies in `s[j..k]` (`.` does not match a newline).
   */
  function LazyEnd(s: string, j: nat, close: (string, nat) -> bool): (r: Option<nat>)
    ensures r.Some? ==> j <= r.value <= |s|
    decreases |s| - j
  {
    if j > |s| then None
    else if close(s, j) then Some(j)
    else if j == |s| || s[j] == '\n' then None
    else LazyEnd(s, j + 1, close)
  }

  /**
   * Where the lazy `.*?` stops, the closing pattern holds, and at no earlier position on the
   * way does it hold or is there a newline.
   */
  lemma {:induction false} LazyEndFound(s: string, j: nat, close: (string, nat) -> bool)
    requires LazyEnd(s, j, close).Some?
    ensures close(s, LazyEnd(s, j, close).value)
    ensures forall k :: j <= k < LazyEnd(s, j, close).value ==> s[k] != '\n' && !close(s, k)
    decreases |s| - j
  {
    if !close(s, j) {
      LazyEndFound(s, j + 1, close);
    }
  }

  /** Where the lazy `.*?` stops, the closing pattern holds. */
  lemma {:induction false} LazyEndCloses(s: string, j: nat, close: (string, nat) -> bool)
    requires LazyEnd(s, j, close).Some?
    ensures close(s, LazyEnd(s, j, close).value)
    decreases |s| - j
  {
    if !close(s, j) {
      LazyEndCloses(s, j + 1, close);
    }
  }

  /**
   * A lazy scan started inside `q` stops at the same place in `w + q`, moved by `|w|`, when
   * the closing pattern reads the same there.
   */
  lemma {:induction false} LazyEndShift(w: string, q: string, j: nat, close: (string, nat) -> bool)
    requires j <= |q|
    requires forall k :: j <= k <= |q| ==> close(w + q, |w| + k) == close(q, k)
    ensures LazyEnd(w + q, |w| + j, close) ==
      if LazyEnd(q, j, close).Some? then Some(|w| + LazyEnd(q, j, close).value) else None
    decreases |q| - j
  {
    if !close(q, j) && j < |q| {
      assert (w + q)[|w| + j] == q[j];
      LazyEndShift(w, q, j + 1, close);
    }
  }

  /**
   * When `k` is an admissible closing position and no earlier position on the line is one,
   * the lazy `.*?` stops exactly at `k`.
   */
  lemma {:induction false} LazyEndExact(s: string, j: nat, close: (string, nat) -> bool, k: nat)
    requires j <= k <= |s| && close(s, k)
    requires forall q :: j <= q < k ==> s[q] != '\n' && !close(s, q)
    ensures LazyEnd(s, j, close) == Some(k)
    decreases k - j
  {
    if j < k {
      LazyEndExact(s, j + 1, close, k);
    }
  }
}
