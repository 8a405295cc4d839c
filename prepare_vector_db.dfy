/**
 * Text clean-up applied to every chunk before it is embedded (prepare_vector_db.py):
 * `extract_text` chains two regular-expression substitutions,
 *
 *   1. `re.sub(r"\n{2,}", "\n\n", docs)`: every run of two or more newlines becomes one blank line;
 *   2. `re.sub(r"(\S)\n(\S)", r"\1 \2", docs)`: a newline between two non-whitespace
 *      characters becomes a space, matches being taken left to right without overlap;
 *
 * and `process_chunks` rewrites the `page_content` of every chunk in place.
 */
module PrepareVectorDb {
  import opened Wrappers
  import opened Text
  import opened Rewrite
  import opened Documents

  predicate IsNewline(c: char)
  {
    c == '\n'
  }

  /** The pattern `\n{2,}` (greedy) at position `i`, replaced by `\n\n`. */
  function NewlineRunAt(s: string, i: nat): Option<Match>
  {
    var n := CountRun(s, i, IsNewline);
    if n >= 2 then Some(Match(i + n, "\n\n")) else None
  }

  /** The pattern `(\S)\n(\S)` at position `i`, replaced by `\1 \2`. */
  function BrokenLineAt(s: string, i: nat): Option<Match>
  {
    if i + 2 < |s| && !IsSpace(s[i]) && s[i + 1] == '\n' && !IsSpace(s[i + 2])
    then Some(Match(i + 3, [s[i], ' ', s[i + 2]]))
    else None
  }

  /** The first substitution of `extract_text`. */
  function CollapseNewlines(s: string): string
  {
    Sub(s, 0, NewlineRunAt)
  }

  /** The second substitution of `extract_text`. */
  function JoinBrokenLines(s: string): string
  {
    Sub(s, 0, BrokenLineAt)
  }

  /**
   * `extract_text(docs)`: never contains three newlines in a row, is never longer than its
   * input, keeps every non-whitespace character in order, and leaves text without
   * newlines alone.
   */
  function ExtractText(docs: string): (r: string)
    ensures !Contains(r, "\n\n\n")
    ensures |r| <= |docs|
    ensures RemoveSpace(r) == RemoveSpace(docs)
    ensures '\n' !in docs ==> r == docs
  {
    ExtractTextFacts(docs);
    JoinBrokenLines(CollapseNewlines(docs))
  }

  lemma ExtractTextFacts(docs: string)
    ensures var r := JoinBrokenLines(CollapseNewlines(docs));
      && !Contains(r, "\n\n\n")
      && |r| <= |docs|
      && RemoveSpace(r) == RemoveSpace(docs)
      && ('\n' !in docs ==> r == docs)
  {
    var c := CollapseNewlines(docs);
    CollapseNoTriple(docs, 0);
    CollapseShrinks(docs);
    CollapseKeepsWords(docs);
    JoinKeepsLength(c);
    JoinKeepsWords(c);
    JoinKeepsNoTriple(c);
    if '\n' !in docs {
      CollapseWithoutNewline(docs);
      JoinWithoutNewline(docs);
    }
  }

  /** A chunk with its `page_content` cleaned by `extract_text`, its metadata untouched. */
  function Cleaned(d: Document): (r: Document)
    ensures r.metadata == d.metadata && r.pageContent == ExtractText(d.pageContent)
  {
    d.(pageContent := ExtractText(d.pageContent))
  }

  /** `process_chunks(chunks)`: each chunk is cleaned in place; the same list comes back. */
  method ProcessChunks(chunks: array<Document>) returns (r: array<Document>)
    modifies chunks
    ensures r == chunks
    ensures forall k :: 0 <= k < chunks.Length ==> chunks[k] == Cleaned(old(chunks[k]))
  {
    ghost var before := chunks[..];
    for i := 0 to chunks.Length
      invariant forall k :: 0 <= k < i ==> chunks[k] == Cleaned(before[k])
      invariant forall k :: i <= k < chunks.Length ==> chunks[k] == before[k]
    {
      chunks[i] := Cleaned(chunks[i]);
    }
    r := chunks;
  }

  // ---- The first substitution: runs of newlines ----

  /** Putting a character in front keeps "no `\n\n\n`" unless it creates one at the front. */
  lemma PrependKeepsNoTriple(c: char, t: string)
    requires !Contains(t, "\n\n\n")
    requires !(c == '\n' && |t| >= 2 && t[0] == '\n' && t[1] == '\n')
    ensures !Contains([c] + t, "\n\n\n")
  {
    var u := [c] + t;
    forall k | 0 <= k <= |u| - 3
      ensures !OccursAt(u, "\n\n\n", k)
    {
      if k == 0 {
        assert u[0..3] == [c, t[0], t[1]];
      } else {
        assert u[k..k + 3] == t[k - 1..k + 2];
        assert !OccursAt(t, "\n\n\n", k - 1);
      }
    }
  }

  /**
   * After the first substitution there is never a `\n\n\n`, and the output starts with the
   * input's first character when that is not a newline.
   */
  lemma {:induction false} CollapseNoTriple(s: string, i: nat)
    ensures !Contains(Sub(s, i, NewlineRunAt), "\n\n\n")
    ensures i < |s| && s[i] != '\n' ==> Sub(s, i, NewlineRunAt) != [] && Sub(s, i, NewlineRunAt)[0] == s[i]
    decreases |s| - i
  {
    if i < |s| {
      var n := CountRun(s, i, IsNewline);
      if n >= 2 {
        CollapseNoTriple(s, i + n);
        NoTripleAtRun(s, i, n);
      } else {
        CollapseNoTriple(s, i + 1);
        NoTripleAtChar(s, i);
      }
    } else {
      SubAtEnd(s, i, NewlineRunAt);
      assert forall k :: !OccursAt(Sub(s, i, NewlineRunAt), "\n\n\n", k);
    }
  }

  /** The scan from `e` starts with `s[e]` when that is not a newline, and is empty at the end. */
  predicate StartsWell(s: string, e: nat)
  {
    e >= |s| || s[e] == '\n' || (Sub(s, e, NewlineRunAt) != [] && Sub(s, e, NewlineRunAt)[0] == s[e])
  }

  /** A run of two or more newlines becomes `\n\n`, and what follows it does not start with a newline. */
  lemma NoTripleAtRun(s: string, i: nat, n: nat)
    requires i < |s| && n == CountRun(s, i, IsNewline) && n >= 2
    requires !Contains(Sub(s, i + n, NewlineRunAt), "\n\n\n") && StartsWell(s, i + n)
    ensures !Contains(Sub(s, i, NewlineRunAt), "\n\n\n")
  {
    var e := i + n;
    SubMatch(s, i, NewlineRunAt, e, "\n\n");
    var t := Sub(s, e, NewlineRunAt);
    if e >= |s| {
      SubAtEnd(s, e, NewlineRunAt);
    }
    assert t != [] ==> t[0] != '\n';
    PrependBlankLine(t);
  }

  /** A blank line put in front of a text that does not start with a newline makes no `\n\n\n`. */
  lemma PrependBlankLine(t: string)
    requires !Contains(t, "\n\n\n") && (t == [] || t[0] != '\n')
    ensures !Contains("\n\n" + t, "\n\n\n")
  {
    var u := ['\n'] + t;
    PrependKeepsNoTriple('\n', t);
    assert |u| >= 2 ==> u[1] == t[0];
    PrependKeepsNoTriple('\n', u);
    assert "\n\n" + t == ['\n'] + u;
  }

  /** A character outside a long run is copied, and a lone newline is not followed by another. */
  lemma NoTripleAtChar(s: string, i: nat)
    requires i < |s| && CountRun(s, i, IsNewline) < 2
    requires !Contains(Sub(s, i + 1, NewlineRunAt), "\n\n\n") && StartsWell(s, i + 1)
    ensures !Contains(Sub(s, i, NewlineRunAt), "\n\n\n")
    ensures s[i] != '\n' ==> Sub(s, i, NewlineRunAt) != [] && Sub(s, i, NewlineRunAt)[0] == s[i]
  {
    SubSkip(s, i, NewlineRunAt);
    var t := Sub(s, i + 1, NewlineRunAt);
    if i + 1 >= |s| {
      SubAtEnd(s, i + 1, NewlineRunAt);
    }
    assert s[i] == '\n' ==> t == [] || t[0] != '\n';
    PrependKeepsNoTriple(s[i], t);
  }

  /** The first substitution never makes the text longer. */
  lemma CollapseShrinks(s: string)
    ensures |CollapseNewlines(s)| <= |s|
  {
    SubShrinks(s, 0, NewlineRunAt);
  }

  /** The first substitution deletes newlines only. */
  lemma CollapseKeepsWords(s: string)
    ensures RemoveSpace(CollapseNewlines(s)) == RemoveSpace(s)
  {
    forall j: nat | Fires(NewlineRunAt, s, j)
      ensures RemoveSpace(NewlineRunAt(s, j).value.replacement) == RemoveSpace(s[j..NewlineRunAt(s, j).value.end])
    {
      var e := NewlineRunAt(s, j).value.end;
      RemoveSpaceOfSpaces(s[j..e]);
      RemoveSpaceOfSpaces("\n\n");
    }
    SubKeepsWords(s, 0, NewlineRunAt);
  }

  /** Text without a newline passes the first substitution unchanged. */
  lemma CollapseWithoutNewline(s: string)
    requires '\n' !in s
    ensures CollapseNewlines(s) == s
  {
    forall j: nat | j < |s|
      ensures !Fires(NewlineRunAt, s, j)
    {
      assert s[j] != '\n';
    }
    SubUnchanged(s, 0, NewlineRunAt);
  }

  /** The newline run at a position only depends on the text from that position on. */
  lemma {:induction false} CountRunShift(p: string, q: string, j: nat)
    requires j <= |q|
    ensures CountRun(p + q, |p| + j, IsNewline) == CountRun(q, j, IsNewline)
    decreases |q| - j
  {
    if j < |q| {
      assert (p + q)[|p| + j] == q[j];
      CountRunShift(p, q, j + 1);
    }
  }

  /** A newline run that starts in `p` stays inside `p` unless `p` ends and `q` starts with a newline. */
  lemma {:induction false} CountRunPrefix(p: string, q: string, i: nat)
    requires i < |p|
    requires q == [] || p[|p| - 1] != '\n' || q[0] != '\n'
    ensures CountRun(p + q, i, IsNewline) == CountRun(p, i, IsNewline)
    decreases |p| - i
  {
    assert (p + q)[i] == p[i];
    if p[i] == '\n' {
      if i + 1 < |p| {
        CountRunPrefix(p, q, i + 1);
      } else if q != [] {
        assert (p + q)[i + 1] == q[0];
      }
    }
  }

  /** Inside `p`, away from a newline run crossing the boundary, the first pattern sees only `p`. */
  lemma NewlineRunAtPrefix(p: string, q: string, i: nat)
    requires i < |p|
    requires q == [] || p[|p| - 1] != '\n' || q[0] != '\n'
    ensures NewlineRunAt(p + q, i) == NewlineRunAt(p, i)
  {
    CountRunPrefix(p, q, i);
  }

  /** The first substitution of `p + q` from inside `p` is that of `p`, then that of `q`'s part. */
  lemma {:induction false} CollapsePrefix(p: string, q: string, i: nat)
    requires i <= |p|
    requires p == [] || q == [] || p[|p| - 1] != '\n' || q[0] != '\n'
    ensures Sub(p + q, i, NewlineRunAt) == Sub(p, i, NewlineRunAt) + Sub(p + q, |p|, NewlineRunAt)
    decreases |p| - i
  {
    if i < |p| {
      NewlineRunAtPrefix(p, q, i);
      if Fires(NewlineRunAt, p, i) {
        var e := NewlineRunAt(p, i).value.end;
        SubFires(p, i, NewlineRunAt);
        SubFires(p + q, i, NewlineRunAt);
        CollapsePrefix(p, q, e);
        AppendAssoc("\n\n", Sub(p, e, NewlineRunAt), Sub(p + q, |p|, NewlineRunAt));
      } else {
        SubSkip(p, i, NewlineRunAt);
        SubSkip(p + q, i, NewlineRunAt);
        assert (p + q)[i] == p[i];
        CollapsePrefix(p, q, i + 1);
        AppendAssoc([p[i]], Sub(p, i + 1, NewlineRunAt), Sub(p + q, |p|, NewlineRunAt));
      }
    } else {
      assert Sub(p, i, NewlineRunAt) == [];
    }
  }

  lemma AppendAssoc(a: string, b: string, c: string)
    ensures a + (b + c) == (a + b) + c
  {
  }

  /** The first pattern at position `|p| + j` of `p + q` sees only `q`. */
  lemma NewlineRunAtSuffix(p: string, q: string, j: nat)
    requires j <= |q|
    ensures NewlineRunAt(p + q, |p| + j) ==
      if NewlineRunAt(q, j).Some? then Some(Match(|p| + NewlineRunAt(q, j).value.end, "\n\n")) else None
  {
    CountRunShift(p, q, j);
  }

  /** The first substitution of `p + q` from position `|p| + j` on is that of `q` from `j` on. */
  predicate SuffixAgrees(p: string, q: string, j: nat)
  {
    Sub(p + q, |p| + j, NewlineRunAt) == Sub(q, j, NewlineRunAt)
  }

  /** The first substitution of `p + q` from inside `q` is that of `q`. */
  lemma {:induction false} CollapseSuffix(p: string, q: string, j: nat)
    requires j <= |q|
    ensures SuffixAgrees(p, q, j)
    decreases |q| - j
  {
    if j == |q| {
      SubAtEnd(p + q, |p| + j, NewlineRunAt);
      SubAtEnd(q, j, NewlineRunAt);
    } else if Fires(NewlineRunAt, q, j) {
      var e := NewlineRunAt(q, j).value.end;
      CollapseSuffix(p, q, e);
      SuffixStepFires(p, q, j, e);
    } else {
      CollapseSuffix(p, q, j + 1);
      SuffixStepSkips(p, q, j);
    }
  }

  /** A step of `CollapseSuffix` where the first pattern fires in `q`. */
  lemma SuffixStepFires(p: string, q: string, j: nat, e: nat)
    requires j < |q| && Fires(NewlineRunAt, q, j) && e == NewlineRunAt(q, j).value.end
    requires SuffixAgrees(p, q, e)
    ensures SuffixAgrees(p, q, j)
  {
    assert NewlineRunAt(q, j) == Some(Match(e, "\n\n"));
    NewlineRunAtSuffix(p, q, j);
    MatchBoth(p + q, |p| + j, |p| + e, q, j, e, NewlineRunAt, "\n\n");
  }

  /** A step of `CollapseSuffix` where the first pattern does not fire in `q`. */
  lemma SuffixStepSkips(p: string, q: string, j: nat)
    requires j < |q| && !Fires(NewlineRunAt, q, j)
    requires SuffixAgrees(p, q, j + 1)
    ensures SuffixAgrees(p, q, j)
  {
    NoRunSuffix(p, q, j);
    assert (p + q)[|p| + j] == q[j];
    SkipBoth(p + q, |p| + j, |p| + (j + 1), q, j, j + 1, NewlineRunAt);
  }

  /** Where the first pattern does not fire in `q`, it does not fire there in `p + q` either. */
  lemma NoRunSuffix(p: string, q: string, j: nat)
    requires j < |q| && !Fires(NewlineRunAt, q, j)
    ensures !Fires(NewlineRunAt, p + q, |p| + j)
  {
    NewlineRunAtSuffix(p, q, j);
  }

  /** A run made of newlines only is counted whole. */
  lemma {:induction false} CountRunAll(r: string, i: nat)
    requires i <= |r| && forall k :: 0 <= k < |r| ==> r[k] == '\n'
    ensures CountRun(r, i, IsNewline) == |r| - i
    decreases |r| - i
  {
    if i < |r| {
      CountRunAll(r, i + 1);
    }
  }

  /**
   * Every maximal run of newlines (nothing but text that is not a newline on either side)
   * becomes exactly `\n\n` when it has two or more newlines, and stays as it is otherwise;
   * the text on either side is treated independently.
   */
  lemma MaximalRun(p: string, r: string, q: string)
    requires p == [] || p[|p| - 1] != '\n'
    requires q == [] || q[0] != '\n'
    requires r != [] && forall k :: 0 <= k < |r| ==> r[k] == '\n'
    ensures CollapseNewlines(p + r + q) == CollapseNewlines(p) + (if |r| >= 2 then "\n\n" else "\n") + CollapseNewlines(q)
  {
    var s := p + (r + q);
    AppendAssoc(p, r, q);
    var mid := if |r| >= 2 then "\n\n" else "\n";
    CollapsePrefix(p, r + q, 0);
    RunStep(p, r, q, s);
    CollapseSuffix(p + r, q, 0);
    var a, b := Sub(p, 0, NewlineRunAt), Sub(q, 0, NewlineRunAt);
    assert Sub(s, 0, NewlineRunAt) == a + (mid + b);
    AppendAssoc(a, mid, b);
  }

  /** At the start of the run, the scan emits the run's replacement and resumes just after it. */
  lemma RunStep(p: string, r: string, q: string, s: string)
    requires q == [] || q[0] != '\n'
    requires r != [] && forall k :: 0 <= k < |r| ==> r[k] == '\n'
    requires s == p + (r + q) && s == (p + r) + q
    ensures Sub(s, |p|, NewlineRunAt) == (if |r| >= 2 then "\n\n" else "\n") + Sub(s, |p + r|, NewlineRunAt)
  {
    RunCount(p, r, q, s);
    if |r| >= 2 {
      SubMatch(s, |p|, NewlineRunAt, |p| + |r|, "\n\n");
    } else {
      assert s[|p|] == r[0];
      SubSkip(s, |p|, NewlineRunAt);
    }
  }

  /** The greedy run at the start of `r` covers exactly `r`. */
  lemma RunCount(p: string, r: string, q: string, s: string)
    requires q == [] || q[0] != '\n'
    requires r != [] && forall k :: 0 <= k < |r| ==> r[k] == '\n'
    requires s == p + (r + q)
    ensures CountRun(s, |p|, IsNewline) == |r|
  {
    CountRunShift(p, r + q, 0);
    CountRunPrefix(r, q, 0);
    CountRunAll(r, 0);
  }

  // ---- The second substitution: newlines inside a line ----

  /** A newline with a non-whitespace character on each side: where `(\S)\n(\S)` can match. */
  predicate BrokenAround(s: string, k: int)
  {
    0 < k < |s| - 1 && s[k] == '\n' && !IsSpace(s[k - 1]) && !IsSpace(s[k + 1])
  }

  /**
   * Output position `k` of the second substitution started at `i`: a space exactly when `k`
   * is a newline between two non-whitespace characters whose left neighbour `k - 1` was not
   * already taken by a match (a match at `k - 2` turned `k - 2`'s newline into a space and
   * consumed `k - 1`); the input character otherwise.
   */
  predicate JoinRule(s: string, out: string, i: nat, k: nat)
  {
    i <= k < |s| && |out| == |s| - i &&
    out[k - i] == (if BrokenAround(s, k) && k > i && !(k >= i + 2 && out[k - 2 - i] != s[k - 2]) then ' ' else s[k])
  }

  /** Where the pattern fires at `i`, the output `[s[i], ' ', s[i + 2]] + t` follows the rule from `i`. */
  lemma JoinStepFires(s: string, i: nat, j: nat, t: string, out: string)
    requires Fires(BrokenLineAt, s, i) && j == i + 3
    requires |t| == |s| - j
    requires forall k: nat :: j <= k < |s| ==> JoinRule(s, t, j, k)
    requires out == [s[i], ' ', s[i + 2]] + t
    ensures forall k: nat :: i <= k < |s| ==> JoinRule(s, out, i, k)
  {
    forall k: nat | i <= k < |s|
      ensures JoinRule(s, out, i, k)
    {
      if k >= i + 3 {
        assert JoinRule(s, t, j, k);
        assert out[k - i] == t[k - i - 3];
        if k >= i + 5 {
          assert out[k - 2 - i] == t[k - 2 - (i + 3)];
        }
      }
    }
  }

  /** Where the pattern does not fire at `i`, the output `[s[i]] + t` follows the rule from `i`. */
  lemma JoinStepSkip(s: string, i: nat, j: nat, t: string, out: string)
    requires i < |s| && !Fires(BrokenLineAt, s, i) && j == i + 1
    requires |t| == |s| - j
    requires forall k: nat :: j <= k < |s| ==> JoinRule(s, t, j, k)
    requires out == [s[i]] + t
    ensures forall k: nat :: i <= k < |s| ==> JoinRule(s, out, i, k)
  {
    forall k: nat | i <= k < |s|
      ensures JoinRule(s, out, i, k)
    {
      if k >= i + 1 {
        assert JoinRule(s, t, j, k);
        assert out[k - i] == t[k - i - 1];
        if k >= i + 3 {
          assert out[k - 2 - i] == t[k - 2 - (i + 1)];
        }
      }
    }
  }

  /**
   * Output position `k` of the whole second substitution: a space exactly when input `k` is a
   * newline between two non-whitespace characters and the match at `k - 2` did not already
   * consume its left neighbour; the input character otherwise.
   */
  predicate JoinAt(s: string, out: string, k: nat)
    requires k < |s| && |out| == |s|
  {
    out[k] == (if BrokenAround(s, k) && !(k >= 2 && out[k - 2] != s[k - 2]) then ' ' else s[k])
  }

  /** The second substitution started at `i` follows the rule at every position from `i` on. */
  lemma {:induction false} JoinFrom(s: string, i: nat)
    requires i <= |s|
    ensures |Sub(s, i, BrokenLineAt)| == |s| - i
    ensures forall k: nat :: i <= k < |s| ==> JoinRule(s, Sub(s, i, BrokenLineAt), i, k)
    decreases |s| - i
  {
    if i < |s| {
      if Fires(BrokenLineAt, s, i) {
        JoinFrom(s, i + 3);
        JoinFromFires(s, i, i + 3);
      } else {
        JoinFrom(s, i + 1);
        JoinFromSkips(s, i, i + 1);
      }
    }
  }

  /** The inductive step of `JoinFrom` where the pattern fires at `i`. */
  lemma JoinFromFires(s: string, i: nat, j: nat)
    requires Fires(BrokenLineAt, s, i)
    requires j == i + 3 && |Sub(s, j, BrokenLineAt)| == |s| - j
    requires forall k: nat :: j <= k < |s| ==> JoinRule(s, Sub(s, j, BrokenLineAt), j, k)
    ensures |Sub(s, i, BrokenLineAt)| == |s| - i
    ensures forall k: nat :: i <= k < |s| ==> JoinRule(s, Sub(s, i, BrokenLineAt), i, k)
  {
    SubFires(s, i, BrokenLineAt);
    JoinStepFires(s, i, j, Sub(s, j, BrokenLineAt), Sub(s, i, BrokenLineAt));
  }

  /** The inductive step of `JoinFrom` where the pattern does not fire at `i`. */
  lemma JoinFromSkips(s: string, i: nat, j: nat)
    requires i < |s| && !Fires(BrokenLineAt, s, i)
    requires j == i + 1 && |Sub(s, j, BrokenLineAt)| == |s| - j
    requires forall k: nat :: j <= k < |s| ==> JoinRule(s, Sub(s, j, BrokenLineAt), j, k)
    ensures |Sub(s, i, BrokenLineAt)| == |s| - i
    ensures forall k: nat :: i <= k < |s| ==> JoinRule(s, Sub(s, i, BrokenLineAt), i, k)
  {
    SubSkip(s, i, BrokenLineAt);
    JoinStepSkip(s, i, j, Sub(s, j, BrokenLineAt), Sub(s, i, BrokenLineAt));
  }

  /**
   * The second substitution, position by position: output `k` is a space exactly when input
   * `k` is a newline between two non-whitespace characters and the match at `k - 2` did not
   * already consume its left neighbour; every other character is kept.
   */
  lemma JoinBrokenLinesSpec(s: string)
    ensures |JoinBrokenLines(s)| == |s|
    ensures forall k :: 0 <= k < |s| ==> JoinAt(s, JoinBrokenLines(s), k)
  {
    JoinFrom(s, 0);
    forall k | 0 <= k < |s|
      ensures JoinAt(s, JoinBrokenLines(s), k)
    {
      assert JoinRule(s, JoinBrokenLines(s), 0, k);
    }
  }

  /** Matches are taken left to right without overlap: `"a\nb\nc"` becomes `"a b\nc"`. */
  lemma JoinLeftToRight()
    ensures JoinBrokenLines("a\nb\nc") == "a b\nc"
  {
    var s := "a\nb\nc";
    JoinBrokenLinesSpec(s);
    var out := JoinBrokenLines(s);
    assert BrokenAround(s, 1) && BrokenAround(s, 3);
    assert out[0] == 'a' && out[1] == ' ' && out[2] == 'b';
    assert out[3] == '\n' && out[4] == 'c';
  }

  /** The second substitution keeps the length. */
  lemma JoinKeepsLength(s: string)
    ensures |JoinBrokenLines(s)| == |s|
  {
    SubKeepsLength(s, 0, BrokenLineAt);
  }

  /** The second substitution only turns newlines into spaces. */
  lemma JoinKeepsWords(s: string)
    ensures RemoveSpace(JoinBrokenLines(s)) == RemoveSpace(s)
  {
    forall j: nat | Fires(BrokenLineAt, s, j)
      ensures RemoveSpace(BrokenLineAt(s, j).value.replacement) == RemoveSpace(s[j..BrokenLineAt(s, j).value.end])
    {
      var a, b := s[j], s[j + 2];
      assert s[j..j + 3] == [a] + ['\n'] + [b];
      RemoveSpaceConcat([a] + ['\n'], [b]);
      RemoveSpaceConcat([a], ['\n']);
      RemoveSpaceConcat([a] + [' '], [b]);
      RemoveSpaceConcat([a], [' ']);
      assert [a, ' ', b] == [a] + [' '] + [b];
    }
    SubKeepsWords(s, 0, BrokenLineAt);
  }

  /** Text without a newline passes the second substitution unchanged. */
  lemma JoinWithoutNewline(s: string)
    requires '\n' !in s
    ensures JoinBrokenLines(s) == s
  {
    forall j: nat | j < |s|
      ensures !Fires(BrokenLineAt, s, j)
    {
      if j + 1 < |s| {
        assert s[j + 1] != '\n';
      }
    }
    SubUnchanged(s, 0, BrokenLineAt);
  }

  /** The second substitution creates no newline, so it cannot create `\n\n\n`. */
  lemma JoinKeepsNoTriple(s: string)
    requires !Contains(s, "\n\n\n")
    ensures !Contains(JoinBrokenLines(s), "\n\n\n")
  {
    var out := JoinBrokenLines(s);
    JoinBrokenLinesSpec(s);
    forall k | 0 <= k <= |out| - 3
      ensures !OccursAt(out, "\n\n\n", k)
    {
      assert !OccursAt(s, "\n\n\n", k);
      assert s[k..k + 3] == [s[k], s[k + 1], s[k + 2]];
      assert JoinAt(s, out, k) && JoinAt(s, out, k + 1) && JoinAt(s, out, k + 2);
      assert out[k..k + 3] == [out[k], out[k + 1], out[k + 2]];
    }
  }
}
