/**
 * String primitives of Python that the core relies on: the whitespace class used by
 * `\s` and `str.strip()`, `str.strip()` itself, `sep.join(xs)`, iteration over the
 * lines of a text file, and substring search.
 */
module Text {

  /**
   * The characters Python 3 treats as whitespace in `str.isspace()`, `str.strip()` and
   * the regular-expression class `\s` on `str` patterns.
   */
  predicate IsSpace(c: char)
  {
    || c == ' ' || c == '\t' || c == '\n' || c == '\r'
    || c == '\U{0B}' || c == '\U{0C}'
    || ('\U{1C}' <= c <= '\U{1F}')
    || c == '\U{85}' || c == '\U{A0}' || c == '\U{1680}'
    || ('\U{2000}' <= c <= '\U{200A}')
    || c == '\U{2028}' || c == '\U{2029}' || c == '\U{202F}' || c == '\U{205F}' || c == '\U{3000}'
  }

  /** Every character of `s` is whitespace. */
  predicate AllSpace(s: string)
  {
    forall k :: 0 <= k < |s| ==> IsSpace(s[k])
  }

  /** `pat` occurs in `t` as a contiguous substring (Python's `pat in t`). */
  ghost predicate Contains(t: string, pat: string)
  {
    exists k :: OccursAt(t, pat, k)
  }

  /** `pat` occurs in `t` starting at index `k`. */
  predicate OccursAt(t: string, pat: string, k: int)
  {
    0 <= k <= |t| - |pat| && t[k..k + |pat|] == pat
  }

  /** `s` with every whitespace character deleted; two texts that differ only in layout agree on it. */
  function RemoveSpace(s: string): (r: string)
    ensures |r| <= |s|
    ensures forall k :: 0 <= k < |r| ==> !IsSpace(r[k])
    decreases |s|
  {
    if s == [] then []
    else (if IsSpace(s[0]) then [] else [s[0]]) + RemoveSpace(s[1..])
  }

  lemma {:induction false} RemoveSpaceConcat(a: string, b: string)
    ensures RemoveSpace(a + b) == RemoveSpace(a) + RemoveSpace(b)
    decreases |a|
  {
    if a != [] {
      assert (a + b)[1..] == a[1..] + b;
      RemoveSpaceConcat(a[1..], b);
    } else {
      assert a + b == b;
    }
  }

  lemma {:induction false} RemoveSpaceOfSpaces(s: string)
    requires AllSpace(s)
    ensures RemoveSpace(s) == []
    decreases |s|
  {
    if s != [] {
      RemoveSpaceOfSpaces(s[1..]);
    }
  }

  /** Text without any whitespace is its own whitespace-free form. */
  lemma {:induction false} RemoveSpaceOfWord(s: string)
    requires forall k :: 0 <= k < |s| ==> !IsSpace(s[k])
    ensures RemoveSpace(s) == s
    decreases |s|
  {
    if s != [] {
      RemoveSpaceOfWord(s[1..]);
    }
  }

  /** Python's `s.lstrip()`: drops the leading whitespace. */
  function TrimStart(s: string): string
    decreases |s|
  {
    if |s| > 0 && IsSpace(s[0]) then TrimStart(s[1..]) else s
  }

  /** `lstrip()` keeps a suffix, drops only whitespace, and leaves no leading whitespace. */
  lemma {:induction false} TrimStartSpec(s: string)
    ensures var r := TrimStart(s);
      && |r| <= |s| && r == s[|s| - |r|..]
      && AllSpace(s[..|s| - |r|])
      && (r == [] || !IsSpace(r[0]))
    decreases |s|
  {
    if |s| > 0 && IsSpace(s[0]) {
      var r := TrimStart(s[1..]);
      TrimStartSpec(s[1..]);
      assert s[..|s| - |r|] == [s[0]] + s[1..][..|s[1..]| - |r|];
      assert s[|s| - |r|..] == s[1..][|s[1..]| - |r|..];
    }
  }

  /** `lstrip()` deletes whitespace only. */
  lemma {:induction false} TrimStartKeepsWords(s: string)
    ensures RemoveSpace(TrimStart(s)) == RemoveSpace(s)
    decreases |s|
  {
    if |s| > 0 && IsSpace(s[0]) {
      TrimStartKeepsWords(s[1..]);
    }
  }

  /** Python's `s.rstrip()`: drops the trailing whitespace. */
  function TrimEnd(s: string): string
    decreases |s|
  {
    if |s| > 0 && IsSpace(s[|s| - 1]) then TrimEnd(s[..|s| - 1]) else s
  }

  /** `rstrip()` keeps a prefix, drops only whitespace, and leaves no trailing whitespace. */
  lemma {:induction false} TrimEndSpec(s: string)
    ensures var r := TrimEnd(s);
      && |r| <= |s| && r == s[..|r|]
      && AllSpace(s[|r|..])
      && (r == [] || !IsSpace(r[|r| - 1]))
    decreases |s|
  {
    if |s| > 0 && IsSpace(s[|s| - 1]) {
      var t := s[..|s| - 1];
      var r := TrimEnd(t);
      TrimEndSpec(t);
      TrimEndStep(s, t, r);
      assert r == s[..|r|];
    }
  }

  /** `rstrip()` deletes whitespace only. */
  lemma {:induction false} TrimEndKeepsWords(s: string)
    ensures RemoveSpace(TrimEnd(s)) == RemoveSpace(s)
    decreases |s|
  {
    if |s| > 0 && IsSpace(s[|s| - 1]) {
      TrimEndKeepsWords(s[..|s| - 1]);
      RemoveSpaceDropLast(s, s[..|s| - 1]);
    }
  }

  lemma TrimEndStep(s: string, t: string, r: string)
    requires |s| > 0 && IsSpace(s[|s| - 1]) && t == s[..|s| - 1]
    requires |r| <= |t| && AllSpace(t[|r|..])
    ensures AllSpace(s[|r|..])
  {
    AllSpaceAppend(t[|r|..], s[|s| - 1]);
    assert s[|r|..] == t[|r|..] + [s[|s| - 1]];
  }

  lemma AllSpaceAppend(a: string, c: char)
    requires AllSpace(a) && IsSpace(c)
    ensures AllSpace(a + [c])
  {
  }

  lemma RemoveSpaceDropLast(s: string, t: string)
    requires |s| > 0 && IsSpace(s[|s| - 1]) && t == s[..|s| - 1]
    ensures RemoveSpace(t) == RemoveSpace(s)
  {
    var last := s[|s| - 1];
    assert s == t + [last];
    RemoveSpaceConcat(t, [last]);
    RemoveSpaceOfSpaces([last]);
  }

  /** Python's `s.strip()`. */
  function Strip(s: string): string
  {
    TrimEnd(TrimStart(s))
  }

  /**
   * `strip()` returns the longest slice of `s` that neither starts nor ends with whitespace,
   * everything around it being whitespace.
   */
  lemma StripSpec(s: string)
    ensures var r := Strip(s);
      && |r| <= |s|
      && (r == [] || (!IsSpace(r[0]) && !IsSpace(r[|r| - 1])))
      && TrimmedFrom(r, s)
  {
    var t := TrimStart(s);
    var r := TrimEnd(t);
    TrimStartSpec(s);
    TrimEndSpec(t);
    StripParts(s, t, r);
    assert Strip(s) == r;
  }

  /** `strip()` deletes whitespace only. */
  lemma StripKeepsWords(s: string)
    ensures RemoveSpace(Strip(s)) == RemoveSpace(s)
  {
    TrimStartKeepsWords(s);
    TrimEndKeepsWords(TrimStart(s));
  }

  /** Trimming both ends, stated on the three texts involved. */
  lemma StripParts(s: string, t: string, r: string)
    requires |t| <= |s| && t == s[|s| - |t|..] && AllSpace(s[..|s| - |t|])
    requires t == [] || !IsSpace(t[0])
    requires |r| <= |t| && r == t[..|r|] && AllSpace(t[|r|..])
    requires r == [] || !IsSpace(r[|r| - 1])
    ensures |r| <= |s|
    ensures r == [] || (!IsSpace(r[0]) && !IsSpace(r[|r| - 1]))
    ensures TrimmedFrom(r, s)
  {
    StripWitness(s, t, r);
    if r != [] {
      assert r[0] == t[0];
    }
  }

  /** `r` is a slice of `s` with nothing but whitespace before and after it. */
  ghost predicate TrimmedFrom(r: string, s: string)
  {
    exists a :: 0 <= a <= |s| - |r| && r == s[a..a + |r|] && AllSpace(s[..a]) && AllSpace(s[a + |r|..])
  }

  lemma StripWitness(s: string, t: string, r: string)
    requires |t| <= |s| && t == s[|s| - |t|..] && AllSpace(s[..|s| - |t|])
    requires |r| <= |t| && r == t[..|r|] && AllSpace(t[|r|..])
    ensures TrimmedFrom(r, s)
  {
    var a := |s| - |t|;
    assert s[a + |r|..] == t[|r|..];
    assert r == s[a..a + |r|] && AllSpace(s[..a]) && AllSpace(s[a + |r|..]);
  }

  /** A text that neither starts nor ends with whitespace is left alone by `strip()`. */
  lemma StripIdentity(s: string)
    requires s == [] || (!IsSpace(s[0]) && !IsSpace(s[|s| - 1]))
    ensures Strip(s) == s
  {
  }

  /** Python's `sep.join(xs)`. */
  function Join(sep: string, xs: seq<string>): (r: string)
    decreases |xs|
  {
    if |xs| == 0 then ""
    else if |xs| == 1 then xs[0]
    else xs[0] + sep + Join(sep, xs[1..])
  }

  /** Joining one more element appends the separator and that element. */
  lemma {:induction false} JoinAppend(sep: string, xs: seq<string>, x: string)
    ensures Join(sep, xs + [x]) == if xs == [] then x else Join(sep, xs) + sep + x
    decreases |xs|
  {
    if |xs| >= 2 {
      assert (xs + [x])[1..] == xs[1..] + [x];
      JoinAppend(sep, xs[1..], x);
    } else if |xs| == 1 {
      assert (xs + [x])[1..] == [x];
    }
  }

  /** The length of a join: the elements plus one separator between each two. */
  lemma {:induction false} JoinLength(sep: string, xs: seq<string>)
    ensures |Join(sep, xs)| == TotalLength(xs) + (if xs == [] then 0 else (|xs| - 1) * |sep|)
    decreases |xs|
  {
    if |xs| >= 2 {
      JoinLength(sep, xs[1..]);
    }
  }

  function TotalLength(xs: seq<string>): nat
    decreases |xs|
  {
    if xs == [] then 0 else |xs[0]| + TotalLength(xs[1..])
  }

  /** Length of the first line of `s`, its terminating `\n` included when there is one. */
  function LineLength(s: string): (k: nat)
    requires s != []
    ensures 0 < k <= |s|
    ensures forall j :: 0 <= j < k - 1 ==> s[j] != '\n'
    ensures k < |s| ==> s[k - 1] == '\n'
    ensures k == |s| || s[k - 1] == '\n'
    decreases |s|
  {
    if s[0] == '\n' || |s| == 1 then 1 else 1 + LineLength(s[1..])
  }

  /**
   * The lines Python yields when iterating over a text file whose content is `s`: each
   * keeps its terminating `\n`; the last one may have none.
   */
  function Lines(s: string): (ls: seq<string>)
    decreases |s|
  {
    if s == [] then [] else var k := LineLength(s); [s[..k]] + Lines(s[k..])
  }

  /** The lines are non-empty, hold `\n` only as their last character, and concatenate back to the file. */
  lemma {:induction false} LinesSpec(s: string)
    ensures Join("", Lines(s)) == s
    ensures forall i :: 0 <= i < |Lines(s)| ==> Lines(s)[i] != []
    ensures forall i, j :: 0 <= i < |Lines(s)| && 0 <= j < |Lines(s)[i]| - 1 ==> Lines(s)[i][j] != '\n'
    decreases |s|
  {
    if s != [] {
      var k := LineLength(s);
      LinesSpec(s[k..]);
      var rest := Lines(s[k..]);
      assert Lines(s) == [s[..k]] + rest;
      if rest == [] {
        assert s[k..] == [];
        assert s == s[..k];
      } else {
        assert (Lines(s))[1..] == rest;
        assert s == s[..k] + s[k..];
      }
    }
  }

  /** Every line of a file occurs in the file's content. */
  lemma {:induction false} LineInText(s: string, i: int)
    requires 0 <= i < |Lines(s)|
    ensures Contains(s, Lines(s)[i])
    decreases |s|
  {
    var k := LineLength(s);
    assert Lines(s) == [s[..k]] + Lines(s[k..]);
    if i == 0 {
      assert OccursAt(s, s[..k], 0);
    } else {
      LineInText(s[k..], i - 1);
      var l := Lines(s)[i];
      assert l == Lines(s[k..])[i - 1];
      var off :| OccursAt(s[k..], l, off);
      OccursShift(s, k, l, off);
    }
  }

  /** A piece of an occurrence is an occurrence. */
  lemma OccursWithin(t: string, l: string, off: int, pat: string, a: nat)
    requires OccursAt(t, l, off) && a <= |l| - |pat| && pat == l[a..a + |pat|]
    ensures OccursAt(t, pat, off + a)
  {
    forall k | 0 <= k < |pat|
      ensures t[off + a + k] == pat[k]
    {
      assert pat[k] == l[a + k] == t[off..off + |l|][a + k];
    }
  }

  /** An occurrence in a suffix of `t` is an occurrence in `t`. */
  lemma OccursShift(t: string, k: nat, pat: string, off: int)
    requires k <= |t| && OccursAt(t[k..], pat, off)
    ensures OccursAt(t, pat, off + k)
  {
    assert t[off + k..off + k + |pat|] == t[k..][off..off + |pat|];
  }

  /** Every element of a join occurs in the joined text. */
  lemma {:induction false} JoinContains(sep: string, xs: seq<string>, i: int)
    requires 0 <= i < |xs|
    ensures Contains(Join(sep, xs), xs[i])
    decreases |xs|
  {
    var j := Join(sep, xs);
    if |xs| == 1 {
      assert OccursAt(j, xs[0], 0);
    } else if i == 0 {
      assert j == xs[0] + (sep + Join(sep, xs[1..]));
      assert OccursAt(j, xs[0], 0);
    } else {
      JoinContains(sep, xs[1..], i - 1);
      var rest := Join(sep, xs[1..]);
      var x := xs[i];
      assert x == xs[1..][i - 1];
      var off :| OccursAt(rest, x, off);
      var k := |xs[0]| + |sep|;
      assert j == (xs[0] + sep) + rest;
      assert j[k + off..k + off + |x|] == rest[off..off + |x|];
      assert OccursAt(j, x, k + off);
    }
  }
}
