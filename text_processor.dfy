/**
 * `TextProcessor` (text_processor.py): `remove_markdown` runs eight regular-expression
 * substitutions in a fixed order and strips the result; `get_end_tokens` reads the stripped,
 * non-blank lines of a file into a set; `remove_stopwords` and `format_context` hand their
 * argument back.
 *
 * Each pattern is a matcher for Rewrite.Sub that reproduces what Python's backtracking
 * engine finds at a position: greedy repetitions take as much as they can and give back only
 * what the rest of the pattern needs, a lazy `.*?` stops at the first position where the
 * rest matches, and `.` never matches `\n`. The five `^`-anchored patterns use re.MULTILINE,
 * so `^` holds at the start of the text and just after every `\n`; their leading `\s*`
 * may run across blank lines.
 */
module TextProcessor {
  import opened Wrappers
  import opened Text
  import opened Rewrite

  predicate IsDigit(c: char)
  {
    '0' <= c <= '9'
  }

  predicate IsHash(c: char)
  {
    c == '#'
  }

  /** The class `[-*_]` of horizontal rules. */
  predicate IsRuleChar(c: char)
  {
    c == '-' || c == '*' || c == '_'
  }

  /** The class `[-*+]` of list markers. */
  predicate IsBullet(c: char)
  {
    c == '-' || c == '*' || c == '+'
  }

  // ---- Bold and italic: \*{1,2}(.*?)\*{1,2}  ->  \1 ----

  predicate StarClose(s: string, k: nat)
  {
    k < |s| && s[k] == '*'
  }

  /** The closing `\*{1,2}` at `k` is greedy: two stars when there are two. */
  function CloseStars(s: string, k: nat): nat
  {
    if k + 1 < |s| && s[k + 1] == '*' then 2 else 1
  }

  /**
   * The emphasis pattern at `i`. The opening `\*{1,2}` first tries two stars; when no closing
   * star follows on the line it gives one back, and the group then closes at once on the
   * second star, so `**` with no partner is deleted.
   */
  function StarAt(s: string, i: nat): Option<Match>
  {
    if i < |s| && s[i] == '*' then
      if i + 1 < |s| && s[i + 1] == '*' && LazyEnd(s, i + 2, StarClose).Some? then
        var k := LazyEnd(s, i + 2, StarClose).value;
        Some(Match(k + CloseStars(s, k), s[i + 2..k]))
      else if LazyEnd(s, i + 1, StarClose).Some? then
        var k := LazyEnd(s, i + 1, StarClose).value;
        Some(Match(k + CloseStars(s, k), s[i + 1..k]))
      else None
    else None
  }

  // ---- Strikethrough: ~~(.*?)~~  ->  \1 ----

  predicate TildeClose(s: string, k: nat)
  {
    k + 1 < |s| && s[k] == '~' && s[k + 1] == '~'
  }

  function TildeAt(s: string, i: nat): Option<Match>
  {
    if i + 1 < |s| && s[i] == '~' && s[i + 1] == '~' && LazyEnd(s, i + 2, TildeClose).Some? then
      var k := LazyEnd(s, i + 2, TildeClose).value;
      Some(Match(k + 2, s[i + 2..k]))
    else None
  }

  // ---- Headers: ^#{1,6}\s  ->  '' (MULTILINE) ----

  /** The greedy `#{1,6}` at `i` takes up to six hashes. */
  function Hashes(s: string, i: nat): nat
  {
    var n := CountRun(s, i, IsHash);
    if n > 6 then 6 else n
  }

  function HeaderAt(s: string, i: nat): Option<Match>
  {
    var n := Hashes(s, i);
    if LineStart(s, i) && n >= 1 && i + n < |s| && IsSpace(s[i + n]) then Some(Match(i + n + 1, ""))
    else None
  }

  /** A header marker of `n` hashes at `i`: a line start, `n` hashes, then one whitespace character. */
  predicate HeaderMarker(s: string, i: nat, n: nat)
  {
    1 <= n <= 6 && LineStart(s, i) && i + n < |s| &&
    (forall k :: i <= k < i + n ==> s[k] == '#') && IsSpace(s[i + n])
  }

  // ---- Links: \[(.*?)\]\(.*?\)  ->  \1 ----

  predicate CloseParen(s: string, k: nat)
  {
    k < |s| && s[k] == ')'
  }

  /** Where the link text may end: `](` followed, on the same line, by a `)`. */
  predicate LinkClose(s: string, k: nat)
  {
    k + 1 < |s| && s[k] == ']' && s[k + 1] == '(' && LazyEnd(s, k + 2, CloseParen).Some?
  }

  function LinkAt(s: string, i: nat): Option<Match>
  {
    if i < |s| && s[i] == '[' && LazyEnd(s, i + 1, LinkClose).Some? then
      var k := LazyEnd(s, i + 1, LinkClose).value;
      LazyEndFound(s, i + 1, LinkClose);
      var e := LazyEnd(s, k + 2, CloseParen).value;
      Some(Match(e + 1, s[i + 1..k]))
    else None
  }

  // ---- Blockquotes: ^\s*>\s  ->  '' (MULTILINE) ----

  /** The greedy `\s*` at a line start; giving characters back cannot help, since they are whitespace. */
  function Indent(s: string, i: nat): nat
  {
    CountRun(s, i, IsSpace)
  }

  function BlockquoteAt(s: string, i: nat): Option<Match>
  {
    var p := i + Indent(s, i);
    if LineStart(s, i) && p + 1 < |s| && s[p] == '>' && IsSpace(s[p + 1]) then Some(Match(p + 2, ""))
    else None
  }

  // ---- Horizontal rules: ^\s*[-*_]{3,}\s*$  ->  '' (MULTILINE) ----

  /**
   * The trailing `\s*$`: starting from the greedy end `e` of the whitespace run that begins
   * at `q`, give characters back until `$` holds (the end of the text or just before a `\n`).
   */
  function DollarBack(s: string, q: nat, e: nat): (r: Option<nat>)
    requires q <= e <= |s|
    ensures r.Some? ==> q <= r.value <= e && (r.value == |s| || s[r.value] == '\n')
    ensures r.Some? ==> forall k :: r.value < k <= e ==> k < |s| && s[k] != '\n'
    ensures r.None? ==> forall k :: q <= k <= e ==> k < |s| && s[k] != '\n'
    decreases e - q
  {
    if e == |s| || s[e] == '\n' then Some(e)
    else if e == q then None
    else DollarBack(s, q, e - 1)
  }

  function RuleAt(s: string, i: nat): Option<Match>
  {
    var p := i + Indent(s, i);
    var n := CountRun(s, p, IsRuleChar);
    var q := p + n;
    if LineStart(s, i) && n >= 3 then
      var e := DollarBack(s, q, q + CountRun(s, q, IsSpace));
      if e.Some? then Some(Match(e.value, "")) else None
    else None
  }

  // ---- Bullet lists: ^\s*[-*+]\s  ->  '' (MULTILINE) ----

  function ListAt(s: string, i: nat): Option<Match>
  {
    var p := i + Indent(s, i);
    if LineStart(s, i) && p + 1 < |s| && IsBullet(s[p]) && IsSpace(s[p + 1]) then Some(Match(p + 2, ""))
    else None
  }

  // ---- Numbered lists: ^\s*\d+\.\s  ->  '' (MULTILINE) ----

  function NumberedAt(s: string, i: nat): Option<Match>
  {
    var p := i + Indent(s, i);
    var d := CountRun(s, p, IsDigit);
    if LineStart(s, i) && d >= 1 && p + d + 1 < |s| && s[p + d] == '.' && IsSpace(s[p + d + 1])
    then Some(Match(p + d + 2, ""))
    else None
  }

  /**
   * A numbered marker at `i` ending at `b`: a line start, whitespace up to `a`, the digits
   * `s[a..b]`, a `.` and one whitespace character.
   */
  predicate NumberedMarker(s: string, i: nat, a: nat, b: nat)
  {
    LineStart(s, i) && i <= a < b && b + 1 < |s| &&
    (forall k :: i <= k < a ==> IsSpace(s[k])) &&
    (forall k :: a <= k < b ==> IsDigit(s[k])) &&
    s[b] == '.' && IsSpace(s[b + 1])
  }

  // ---- The pipeline ----

  function StarStage(s: string): string { Sub(s, 0, StarAt) }
  function TildeStage(s: string): string { Sub(s, 0, TildeAt) }
  function HeaderStage(s: string): string { Sub(s, 0, HeaderAt) }
  function LinkStage(s: string): string { Sub(s, 0, LinkAt) }
  function BlockquoteStage(s: string): string { Sub(s, 0, BlockquoteAt) }
  function RuleStage(s: string): string { Sub(s, 0, RuleAt) }
  function ListStage(s: string): string { Sub(s, 0, ListAt) }
  function NumberedStage(s: string): string { Sub(s, 0, NumberedAt) }

  /** The eight substitutions of `remove_markdown`, in the order the method applies them. */
  function MarkdownStages(text: string): string
  {
    NumberedStage(ListStage(RuleStage(BlockquoteStage(LinkStage(HeaderStage(TildeStage(StarStage(text))))))))
  }

  /**
   * `remove_markdown(text)`: the substituted text with surrounding whitespace stripped, so it
   * neither starts nor ends with whitespace, and only whitespace was cut from either end.
   */
  function RemoveMarkdown(text: string): (r: string)
    ensures r == [] || (!IsSpace(r[0]) && !IsSpace(r[|r| - 1]))
    ensures TrimmedFrom(r, MarkdownStages(text))
  {
    var m := MarkdownStages(text);
    StripSpec(m);
    Strip(m)
  }

  /** `remove_stopwords(query)`: a placeholder that returns the query unchanged. */
  function RemoveStopwords(query: string): (r: string)
    ensures r == query
  {
    query
  }

  /** `format_context(context)`: a placeholder that returns the context unchanged. */
  function FormatContext(context: string): (r: string)
    ensures r == context
  {
    context
  }

  /**
   * `get_end_tokens()`: `file` is the content of `end_tokens.txt`, or None when the file does
   * not exist, which yields the empty set. Every token is non-empty and already stripped, and
   * every line of the file that is not blank gives its stripped form as a token.
   */
  function EndTokens(file: Option<string>): (r: set<string>)
    ensures file.None? ==> r == {}
    ensures forall t :: t in r ==> t != [] && Strip(t) == t
    ensures file.Some? ==> forall l :: l in Lines(file.value) && Strip(l) != [] ==> Strip(l) in r
  {
    match file
    case None => {}
    case Some(content) =>
      var r := set l | l in Lines(content) && Strip(l) != [] :: Strip(l);
      StrippedTwice(r);
      r
  }

  lemma StrippedTwice(r: set<string>)
    requires forall t :: t in r ==> exists l :: Strip(l) == t
    ensures forall t :: t in r ==> Strip(t) == t
  {
    forall t | t in r
      ensures Strip(t) == t
    {
      var l :| Strip(l) == t;
      StripSpec(l);
      StripIdentity(t);
    }
  }

  // ---- Properties of single patterns ----

  /**
   * The header pattern matches at `i` exactly when a marker of one to six hashes and a
   * whitespace character starts there, and then it deletes precisely that marker.
   */
  lemma HeaderAtIff(s: string, i: nat)
    ensures HeaderAt(s, i).Some? <==> exists n: nat :: HeaderMarker(s, i, n)
    ensures HeaderAt(s, i).Some? ==>
      HeaderMarker(s, i, HeaderAt(s, i).value.end - i - 1) && HeaderAt(s, i).value.replacement == ""
  {
    if HeaderAt(s, i).Some? {
      assert HeaderMarker(s, i, Hashes(s, i));
    }
    if n: nat :| HeaderMarker(s, i, n) {
      assert s[i + n] != '#';
      CountRunIs(s, i, IsHash, n);
    }
  }

  /** A line that starts with a header marker loses it: the scan resumes just after the marker. */
  lemma HeaderLineLosesMarker(s: string, i: nat, n: nat)
    requires HeaderMarker(s, i, n)
    ensures Sub(s, i, HeaderAt) == Sub(s, i + n + 1, HeaderAt)
  {
    assert s[i + n] != '#';
    CountRunIs(s, i, IsHash, n);
    assert HeaderAt(s, i) == Some(Match(i + n + 1, ""));
    SubMatch(s, i, HeaderAt, i + n + 1, "");
  }

  /**
   * The numbered-list pattern matches at `i` exactly when a marker (indentation, digits, `.`
   * and a whitespace character) starts there, and then it deletes precisely that marker.
   */
  lemma NumberedAtIff(s: string, i: nat)
    ensures NumberedAt(s, i).Some? <==> exists a: nat, b: nat :: NumberedMarker(s, i, a, b)
    ensures NumberedAt(s, i).Some? ==>
      NumberedMarker(s, i, i + Indent(s, i), NumberedAt(s, i).value.end - 2) && NumberedAt(s, i).value.replacement == ""
  {
    if NumberedAt(s, i).Some? {
      NumberedAtMarker(s, i);
    }
    if a: nat, b: nat :| NumberedMarker(s, i, a, b) {
      NumberedMarkerMatches(s, i, a, b);
    }
  }

  lemma NumberedAtMarker(s: string, i: nat)
    requires NumberedAt(s, i).Some?
    ensures NumberedMarker(s, i, i + Indent(s, i), NumberedAt(s, i).value.end - 2)
    ensures NumberedAt(s, i).value.replacement == ""
  {
  }

  lemma NumberedMarkerMatches(s: string, i: nat, a: nat, b: nat)
    requires NumberedMarker(s, i, a, b)
    ensures NumberedAt(s, i) == Some(Match(b + 2, ""))
  {
    assert !IsSpace(s[a]);
    CountRunIs(s, i, IsSpace, a - i);
    assert !IsDigit(s[b]);
    CountRunIs(s, a, IsDigit, b - a);
  }

  /** A numbered line loses its marker: the scan resumes just after the `.` and the whitespace. */
  lemma NumberedLineLosesMarker(s: string, i: nat, a: nat, b: nat)
    requires NumberedMarker(s, i, a, b)
    ensures Sub(s, i, NumberedAt) == Sub(s, b + 2, NumberedAt)
  {
    var e := b + 2;
    assert i < e <= |s|;
    NumberedMarkerMatches(s, i, a, b);
    SubMatch(s, i, NumberedAt, e, "");
  }

  /**
   * A one-line link `[t](u)` whose text has no `]` and whose target has no `)`, with no `[`
   * before it, is replaced by its text, and the rest of the text goes through the link stage
   * on its own: later links are replaced in turn.
   */
  lemma LinkStageReplaces(p: string, t: string, u: string, q: string)
    requires '[' !in p
    requires ']' !in t && '\n' !in t
    requires ')' !in u && '\n' !in u
    ensures LinkStage(p + "[" + t + "](" + u + ")" + q) == p + t + LinkStage(q)
  {
    var w := p + "[" + t + "](" + u + ")";
    LinkHead(p, t, u, q);
    assert |w| == |p| + |t| + |u| + 4;
    LinkSuffix(w, q, 0);
    assert LinkAgrees(w, q, 0);
  }

  /** The link stage of `w + q`, with `w` the text before the link and the link itself, up to `q`. */
  lemma LinkHead(p: string, t: string, u: string, q: string)
    requires '[' !in p
    requires ']' !in t && '\n' !in t
    requires ')' !in u && '\n' !in u
    ensures var s := p + "[" + t + "](" + u + ")" + q;
      Sub(s, 0, LinkAt) == p + t + Sub(s, |p| + |t| + |u| + 4, LinkAt)
  {
    var s := p + "[" + t + "](" + u + ")" + q;
    var L, k0 := |p|, |p| + 1 + |t|;
    var e := k0 + 2 + |u|;
    LinkLayout(p, t, u, q, s, L, k0, e);
    LinkSubPrefix(s, p, t, L, k0, e);
  }

  /** Where the pieces of `p + "[" + t + "](" + u + ")" + q` lie, and that no link starts in `p`. */
  lemma LinkLayout(p: string, t: string, u: string, q: string, s: string, L: nat, k0: nat, e: nat)
    requires s == p + "[" + t + "](" + u + ")" + q
    requires L == |p| && k0 == L + 1 + |t| && e == k0 + 2 + |u|
    requires '[' !in p
    requires ']' !in t && '\n' !in t
    requires ')' !in u && '\n' !in u
    ensures L < k0 && k0 + 2 <= e < |s|
      && s[L] == '[' && s[k0] == ']' && s[k0 + 1] == '(' && s[e] == ')'
      && s[..L] == p && s[L + 1..k0] == t
      && (forall j :: L < j < k0 ==> s[j] != ']' && s[j] != '\n')
      && (forall j :: k0 + 2 <= j < e ==> s[j] != ')' && s[j] != '\n')
      && (forall j: nat :: j < L ==> !Fires(LinkAt, s, j))
  {
    LinkPieces(p, t, u, q, s);
    LinkInside(p, t, u, q, s);
    NoLinkBefore(s, p);
  }

  /** The link pattern cannot fire inside a prefix `p` that has no `[`. */
  lemma NoLinkBefore(s: string, p: string)
    requires |p| <= |s| && s[..|p|] == p && '[' !in p
    ensures forall j: nat :: j < |p| ==> !Fires(LinkAt, s, j)
  {
    forall j | 0 <= j < |p|
      ensures s[j] != '['
    {
      assert s[j] == s[..|p|][j];
    }
    NoLinkIn(s, 0, |p|);
  }

  /** The link stage on `p`, a link with text `t` ending at `e`, and the rest of the text. */
  lemma LinkSubPrefix(s: string, p: string, t: string, L: nat, k0: nat, e: nat)
    requires L < k0 && k0 + 2 <= e < |s|
    requires s[L] == '[' && s[k0] == ']' && s[k0 + 1] == '(' && s[e] == ')'
    requires s[..L] == p && s[L + 1..k0] == t
    requires forall j :: L < j < k0 ==> s[j] != ']' && s[j] != '\n'
    requires forall j :: k0 + 2 <= j < e ==> s[j] != ')' && s[j] != '\n'
    requires forall j: nat :: j < L ==> !Fires(LinkAt, s, j)
    ensures Sub(s, 0, LinkAt) == p + t + Sub(s, e + 1, LinkAt)
  {
    LinkMatch(s, L, k0, e);
    FirstMatch(s, LinkAt, L, e + 1, t);
  }

  /** The scan for `)` from inside `q` sees the same text in `w + q` as in `q`. */
  lemma CloseParenShift(w: string, q: string, j: nat)
    requires j <= |q|
    ensures LazyEnd(w + q, |w| + j, CloseParen) ==
      if LazyEnd(q, j, CloseParen).Some? then Some(|w| + LazyEnd(q, j, CloseParen).value) else None
  {
    forall k | j <= k <= |q|
      ensures CloseParen(w + q, |w| + k) == CloseParen(q, k)
    {
      if k < |q| {
        assert (w + q)[|w| + k] == q[k];
      }
    }
    LazyEndShift(w, q, j, CloseParen);
  }

  /** Whether the link text may end at `|w| + k` of `w + q` depends on `q` alone. */
  lemma LinkCloseShift(w: string, q: string, k: nat)
    requires k <= |q|
    ensures LinkClose(w + q, |w| + k) == LinkClose(q, k)
  {
    if k + 1 < |q| {
      assert (w + q)[|w| + k] == q[k] && (w + q)[|w| + k + 1] == q[k + 1];
      CloseParenShift(w, q, k + 2);
    }
  }

  /** The link pattern at `|w| + j` of `w + q` is the one at `j` of `q`, moved by `|w|`. */
  lemma LinkAtShift(w: string, q: string, j: nat)
    requires j <= |q|
    ensures LinkAt(w + q, |w| + j) ==
      if LinkAt(q, j).Some? then Some(Match(|w| + LinkAt(q, j).value.end, LinkAt(q, j).value.replacement)) else None
  {
    var s := w + q;
    var n := |w| + j;
    if j < |q| {
      assert s[n] == q[j];
      if q[j] == '[' {
        LinkTextShift(w, q, j);
        if LazyEnd(q, j + 1, LinkClose).Some? {
          LinkFoundShift(w, q, j, LazyEnd(q, j + 1, LinkClose).value);
        }
      }
    }
  }

  /** The scan for the end of the link text reads the same in `w + q` as in `q`. */
  lemma LinkTextShift(w: string, q: string, j: nat)
    requires j < |q|
    ensures LazyEnd(w + q, |w| + j + 1, LinkClose) ==
      if LazyEnd(q, j + 1, LinkClose).Some? then Some(|w| + LazyEnd(q, j + 1, LinkClose).value) else None
  {
    forall k | j + 1 <= k <= |q|
      ensures LinkClose(w + q, |w| + k) == LinkClose(q, k)
    {
      LinkCloseShift(w, q, k);
    }
    LazyEndShift(w, q, j + 1, LinkClose);
  }

  /** A link found at `j` of `q`, with its text ending at `k`, is found at `|w| + j` of `w + q`. */
  lemma LinkFoundShift(w: string, q: string, j: nat, k: nat)
    requires j < |q| && q[j] == '['
    requires LazyEnd(q, j + 1, LinkClose) == Some(k)
    requires LazyEnd(w + q, |w| + j + 1, LinkClose) == Some(|w| + k)
    ensures LinkAt(q, j).Some?
    ensures LinkAt(w + q, |w| + j) == Some(Match(|w| + LinkAt(q, j).value.end, LinkAt(q, j).value.replacement))
  {
    LazyEndCloses(q, j + 1, LinkClose);
    assert k + 1 < |q| && LazyEnd(q, k + 2, CloseParen).Some?;
    var e := LazyEnd(q, k + 2, CloseParen).value;
    CloseParenShift(w, q, k + 2);
    LinkTargetShift(w, q, j, k, e);
  }

  /** The link read off the two scans, in `q` and in `w + q`. */
  lemma LinkTargetShift(w: string, q: string, j: nat, k: nat, e: nat)
    requires j < |q| && q[j] == '[' && j + 1 <= k <= |q|
    requires LazyEnd(q, j + 1, LinkClose) == Some(k)
    requires LazyEnd(q, k + 2, CloseParen) == Some(e)
    requires LazyEnd(w + q, |w| + j + 1, LinkClose) == Some(|w| + k)
    requires LazyEnd(w + q, |w| + k + 2, CloseParen) == Some(|w| + e)
    ensures LinkAt(q, j) == Some(Match(e + 1, q[j + 1..k]))
    ensures LinkAt(w + q, |w| + j) == Some(Match(|w| + e + 1, q[j + 1..k]))
  {
    LinkAtFrom(q, j, k, e);
    assert (w + q)[|w| + j] == q[j];
    LinkAtFrom(w + q, |w| + j, |w| + k, |w| + e);
    SliceShift(w, q, j + 1, k);
  }

  /** A slice of `q` is the same slice of `w + q`, moved by `|w|`. */
  lemma SliceShift(w: string, q: string, a: nat, b: nat)
    requires a <= b <= |q|
    ensures (w + q)[|w| + a..|w| + b] == q[a..b]
  {
  }

  /** The link stage of `w + q` from position `|w| + j` on is that of `q` from `j` on. */
  predicate LinkAgrees(w: string, q: string, j: nat)
  {
    Sub(w + q, |w| + j, LinkAt) == Sub(q, j, LinkAt)
  }

  /** The link stage of `w + q`, from a position inside `q` on, is that of `q` alone. */
  lemma {:induction false} LinkSuffix(w: string, q: string, j: nat)
    requires j <= |q|
    ensures LinkAgrees(w, q, j)
    decreases |q| - j
  {
    if j == |q| {
      SubAtEnd(w + q, |w| + j, LinkAt);
      SubAtEnd(q, j, LinkAt);
    } else if Fires(LinkAt, q, j) {
      var e := LinkAt(q, j).value.end;
      LinkSuffix(w, q, e);
      LinkSuffixMatch(w, q, j, e);
    } else {
      LinkSuffix(w, q, j + 1);
      LinkSuffixSkip(w, q, j);
    }
  }

  /** The step of `LinkSuffix` where a link starts at `j`. */
  lemma LinkSuffixMatch(w: string, q: string, j: nat, e: nat)
    requires j < |q| && Fires(LinkAt, q, j) && e == LinkAt(q, j).value.end
    requires LinkAgrees(w, q, e)
    ensures LinkAgrees(w, q, j)
  {
    LinkAtShift(w, q, j);
    var r := LinkAt(q, j).value.replacement;
    MatchBoth(w + q, |w| + j, |w| + e, q, j, e, LinkAt, r);
  }

  /** The step of `LinkSuffix` where no link starts at `j`. */
  lemma LinkSuffixSkip(w: string, q: string, j: nat)
    requires j < |q| && !Fires(LinkAt, q, j)
    requires LinkAgrees(w, q, j + 1)
    ensures LinkAgrees(w, q, j)
  {
    LinkAtShift(w, q, j);
    assert (w + q)[|w| + j] == q[j];
    SkipBoth(w + q, |w| + j, |w| + (j + 1), q, j, j + 1, LinkAt);
  }




  lemma LinkPieces(p: string, t: string, u: string, q: string, s: string)
    requires s == p + "[" + t + "](" + u + ")" + q
    ensures var L, k0 := |p|, |p| + 1 + |t|; var e := k0 + 2 + |u|;
      && e < |s| && s[L] == '[' && s[k0] == ']' && s[k0 + 1] == '(' && s[e] == ')'
      && s[..L] == p && s[L + 1..k0] == t && s[e + 1..] == q
  {
    assert s == p + ("[" + t + "](" + u + ")" + q);
  }

  lemma LinkInside(p: string, t: string, u: string, q: string, s: string)
    requires s == p + "[" + t + "](" + u + ")" + q
    requires ']' !in t && '\n' !in t
    requires ')' !in u && '\n' !in u
    ensures var L, k0 := |p|, |p| + 1 + |t|; var e := k0 + 2 + |u|;
      && (forall j :: L < j < k0 ==> s[j] != ']' && s[j] != '\n')
      && (forall j :: k0 + 2 <= j < e ==> s[j] != ')' && s[j] != '\n')
  {
    var L, k0 := |p|, |p| + 1 + |t|;
    var e := k0 + 2 + |u|;
    assert s == p + ("[" + t + "](" + u + ")" + q);
    forall j | L < j < k0
      ensures s[j] == t[j - L - 1]
    {
    }
    forall j | k0 + 2 <= j < e
      ensures s[j] == u[j - k0 - 2]
    {
    }
  }

  /** The link pattern cannot fire where there is no `[`. */
  lemma NoLinkIn(s: string, lo: nat, hi: nat)
    requires lo <= hi <= |s| && forall j :: lo <= j < hi ==> s[j] != '['
    ensures forall j: nat :: lo <= j < hi ==> !Fires(LinkAt, s, j)
  {
  }

  /** A `[` at `L` whose first `](` on the line is at `k0`, followed by the first `)` at `e`. */
  lemma LinkMatch(s: string, L: nat, k0: nat, e: nat)
    requires L < k0 && k0 + 2 <= e < |s|
    requires s[L] == '[' && s[k0] == ']' && s[k0 + 1] == '(' && s[e] == ')'
    requires forall j :: L < j < k0 ==> s[j] != ']' && s[j] != '\n'
    requires forall j :: k0 + 2 <= j < e ==> s[j] != ')' && s[j] != '\n'
    ensures LinkAt(s, L) == Some(Match(e + 1, s[L + 1..k0]))
  {
    LazyEndExact(s, k0 + 2, CloseParen, e);
    LinkTextEnds(s, L, k0);
    LinkAtFrom(s, L, k0, e);
  }

  /** The lazy link text stops at the first `](` whose target closes on the same line. */
  lemma LinkTextEnds(s: string, L: nat, k0: nat)
    requires L < k0 && k0 + 1 < |s| && s[k0] == ']' && s[k0 + 1] == '('
    requires LazyEnd(s, k0 + 2, CloseParen).Some?
    requires forall j :: L < j < k0 ==> s[j] != ']' && s[j] != '\n'
    ensures LazyEnd(s, L + 1, LinkClose) == Some(k0)
  {
    LazyEndExact(s, L + 1, LinkClose, k0);
  }

  /** The link match read off the two lazy scans. */
  lemma LinkAtFrom(s: string, L: nat, k0: nat, e: nat)
    requires L < |s| && s[L] == '['
    requires LazyEnd(s, L + 1, LinkClose) == Some(k0)
    requires LazyEnd(s, k0 + 2, CloseParen) == Some(e)
    ensures LinkAt(s, L) == Some(Match(e + 1, s[L + 1..k0]))
  {
  }

  // ---- Text without markup ----

  /** The characters any of the eight patterns needs to match. */
  predicate IsMarkup(c: char)
  {
    c == '*' || c == '~' || c == '#' || c == '[' || c == '>' || IsRuleChar(c) || IsBullet(c) || IsDigit(c)
  }

  predicate NoMarkup(s: string)
  {
    forall k :: 0 <= k < |s| ==> !IsMarkup(s[k])
  }

  lemma StarIdle(s: string)
    requires '*' !in s
    ensures StarStage(s) == s
  {
    forall j: nat | j < |s|
      ensures !Fires(StarAt, s, j)
    {
    }
    SubUnchanged(s, 0, StarAt);
  }

  lemma TildeIdle(s: string)
    requires '~' !in s
    ensures TildeStage(s) == s
  {
    forall j: nat | j < |s|
      ensures !Fires(TildeAt, s, j)
    {
    }
    SubUnchanged(s, 0, TildeAt);
  }

  lemma HeaderIdle(s: string)
    requires '#' !in s
    ensures HeaderStage(s) == s
  {
    forall j: nat | j < |s|
      ensures !Fires(HeaderAt, s, j)
    {
    }
    SubUnchanged(s, 0, HeaderAt);
  }

  lemma LinkIdle(s: string)
    requires '[' !in s
    ensures LinkStage(s) == s
  {
    forall j: nat | j < |s|
      ensures !Fires(LinkAt, s, j)
    {
    }
    SubUnchanged(s, 0, LinkAt);
  }

  lemma BlockquoteIdle(s: string)
    requires NoMarkup(s)
    ensures BlockquoteStage(s) == s
  {
    forall j: nat | j < |s|
      ensures !Fires(BlockquoteAt, s, j)
    {
    }
    SubUnchanged(s, 0, BlockquoteAt);
  }

  /** Text without markup passes the rule and list stages unchanged. */
  lemma TailStagesIdle(s: string)
    requires NoMarkup(s)
    ensures NumberedStage(ListStage(RuleStage(s))) == s
  {
    forall j: nat | j < |s|
      ensures !Fires(RuleAt, s, j) && !Fires(ListAt, s, j) && !Fires(NumberedAt, s, j)
    {
    }
    SubUnchanged(s, 0, RuleAt);
    SubUnchanged(s, 0, ListAt);
    SubUnchanged(s, 0, NumberedAt);
  }

  /** Text without markup passes the last four stages unchanged. */
  lemma LineStagesIdle(s: string)
    requires NoMarkup(s)
    ensures NumberedStage(ListStage(RuleStage(BlockquoteStage(s)))) == s
  {
    BlockquoteIdle(s);
    TailStagesIdle(s);
  }

  /** Text without `*`, `~`, `#` and `[` passes the first four stages unchanged. */
  lemma HeadStagesIdle(s: string)
    requires '*' !in s && '~' !in s && '#' !in s && '[' !in s
    ensures LinkStage(HeaderStage(TildeStage(StarStage(s)))) == s
  {
    StarIdle(s);
    TildeIdle(s);
    HeaderIdle(s);
    LinkIdle(s);
  }

  /** `remove_markdown` only strips text that holds none of the characters the patterns look for. */
  lemma PlainTextOnlyStripped(s: string)
    requires NoMarkup(s)
    ensures RemoveMarkdown(s) == Strip(s)
  {
    StarIdle(s);
    TildeIdle(s);
    HeaderIdle(s);
    LinkIdle(s);
    LineStagesIdle(s);
  }

  /**
   * In otherwise plain text, a one-line link `[t](u)` (no `]` in `t`, no `)` in `u`) comes out
   * of `remove_markdown` as its text `t`.
   */
  lemma LinkKeepsText(p: string, t: string, u: string, q: string)
    requires NoMarkup(p) && NoMarkup(t) && NoMarkup(u) && NoMarkup(q)
    requires ']' !in t && '\n' !in t
    requires ')' !in u && '\n' !in u
    ensures RemoveMarkdown(p + "[" + t + "](" + u + ")" + q) == Strip(p + t + q)
  {
    var s := p + "[" + t + "](" + u + ")" + q;
    LinkPlainOtherwise(p, t, u, q);
    StarIdle(s);
    TildeIdle(s);
    HeaderIdle(s);
    assert '[' !in p && '[' !in q;
    LinkStageReplaces(p, t, u, q);
    LinkIdle(q);
    NoMarkupConcat(p, t, q);
    LineStagesIdle(p + t + q);
  }

  /** A link written in plain text holds none of the characters of the first three patterns. */
  lemma LinkPlainOtherwise(p: string, t: string, u: string, q: string)
    requires NoMarkup(p) && NoMarkup(t) && NoMarkup(u) && NoMarkup(q)
    ensures var s := p + "[" + t + "](" + u + ")" + q; '*' !in s && '~' !in s && '#' !in s
  {
    var s := p + "[" + t + "](" + u + ")" + q;
    assert forall c :: c in s ==> c in p || c in t || c in u || c in q || c in "[]()";
  }

  lemma NoMarkupConcat(p: string, t: string, q: string)
    requires NoMarkup(p) && NoMarkup(t) && NoMarkup(q)
    ensures NoMarkup(p + t + q)
  {
    var r := p + t + q;
    forall k | 0 <= k < |r|
      ensures !IsMarkup(r[k])
    {
      if k < |p| {
        assert r[k] == p[k];
      } else if k < |p| + |t| {
        assert r[k] == t[k - |p|];
      } else {
        assert r[k] == q[k - |p| - |t|];
      }
    }
  }

  /**
   * The leading `\s*` of the blockquote pattern also matches newlines, so the blank line in
   * front of a quote disappears together with the `> ` marker: `"a\n\n> b"` becomes `"a\nb"`.
   */
  lemma QuoteSwallowsBlankLine(a: char, b: char)
    requires !IsMarkup(a) && !IsSpace(a) && !IsMarkup(b) && !IsSpace(b)
    ensures RemoveMarkdown([a, '\n', '\n', '>', ' ', b]) == [a, '\n', b]
  {
    var s, r := [a, '\n', '\n', '>', ' ', b], [a, '\n', b];
    HeadStagesIdle(s);
    QuoteStage(a, b, s);
    assert NoMarkup(r);
    TailStagesIdle(r);
    StripIdentity(r);
  }

  lemma QuoteStage(a: char, b: char, s: string)
    requires !IsSpace(a) && a != '>' && !IsSpace(b) && s == [a, '\n', '\n', '>', ' ', b]
    ensures BlockquoteStage(s) == [a, '\n', b]
  {
    QuoteHead(a, b, s);
    QuoteMarker(a, b, s);
    QuoteTail(a, b, s);
  }

  /** The first two characters are copied: `a` is no line start, and `\n` is followed by no `>`. */
  lemma QuoteHead(a: char, b: char, s: string)
    requires !IsSpace(a) && a != '>' && !IsSpace(b) && s == [a, '\n', '\n', '>', ' ', b]
    ensures Sub(s, 0, BlockquoteAt) == [a, '\n'] + Sub(s, 2, BlockquoteAt)
  {
    assert Indent(s, 0) == 0;
    assert !Fires(BlockquoteAt, s, 0);
    assert !LineStart(s, 1);
    assert !Fires(BlockquoteAt, s, 1);
    SubSkip(s, 0, BlockquoteAt);
    SubSkip(s, 1, BlockquoteAt);
  }

  /** At the blank line the pattern takes the `\n`, the `>` and the space. */
  lemma QuoteMarker(a: char, b: char, s: string)
    requires !IsSpace(a) && a != '>' && !IsSpace(b) && s == [a, '\n', '\n', '>', ' ', b]
    ensures Sub(s, 2, BlockquoteAt) == Sub(s, 5, BlockquoteAt)
  {
    assert Indent(s, 2) == 1 by {
      CountRunIs(s, 2, IsSpace, 1);
    }
    SubMatch(s, 2, BlockquoteAt, 5, "");
  }

  /** The last character is copied. */
  lemma QuoteTail(a: char, b: char, s: string)
    requires !IsSpace(a) && a != '>' && !IsSpace(b) && s == [a, '\n', '\n', '>', ' ', b]
    ensures Sub(s, 5, BlockquoteAt) == [b]
  {
    assert !Fires(BlockquoteAt, s, 5);
    SubSkip(s, 5, BlockquoteAt);
    SubAtEnd(s, 6, BlockquoteAt);
  }

  // ---- End tokens ----

  /** Every end token is a piece of the file that holds no newline. */
  lemma EndTokenInFile(content: string, t: string)
    requires t in EndTokens(Some(content))
    ensures Contains(content, t) && '\n' !in t
  {
    var l :| l in Lines(content) && Strip(l) != [] && Strip(l) == t;
    var i :| 0 <= i < |Lines(content)| && Lines(content)[i] == l;
    LineInText(content, i);
    LinesSpec(content);
    assert forall j :: 0 <= j < |l| - 1 ==> l[j] != '\n';
    StrippedLineOneLine(l);
    StripSpec(l);
    PieceOccurs(content, l, t);
  }

  /** A line holds `\n` only at its end, which `strip()` removes. */
  lemma StrippedLineOneLine(l: string)
    requires forall j :: 0 <= j < |l| - 1 ==> l[j] != '\n'
    ensures '\n' !in Strip(l)
  {
    var t := Strip(l);
    StripSpec(l);
    var a := TrimOffset(t, l);
    SliceOfLine(l, t, a);
  }

  /** Where the stripped text starts in the original. */
  lemma TrimOffset(t: string, l: string) returns (a: nat)
    requires TrimmedFrom(t, l)
    ensures a <= |l| - |t| && t == l[a..a + |t|]
  {
    a :| 0 <= a <= |l| - |t| && t == l[a..a + |t|] && AllSpace(l[..a]) && AllSpace(l[a + |t|..]);
  }

  lemma SliceOfLine(l: string, t: string, a: nat)
    requires forall j :: 0 <= j < |l| - 1 ==> l[j] != '\n'
    requires a <= |l| - |t| && t == l[a..a + |t|]
    requires t == [] || !IsSpace(t[|t| - 1])
    ensures '\n' !in t
  {
    forall j | 0 <= j < |t| - 1
      ensures t[j] != '\n'
    {
      assert t[j] == l[a + j];
    }
  }

  /** A piece of a piece of the text is a piece of the text. */
  lemma PieceOccurs(content: string, l: string, t: string)
    requires Contains(content, l) && TrimmedFrom(t, l)
    ensures Contains(content, t)
  {
    var off :| OccursAt(content, l, off);
    var a := TrimOffset(t, l);
    OccursWithin(content, l, off, t, a);
  }
}
