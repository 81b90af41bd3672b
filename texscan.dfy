/**
 * The regular expressions with which the two pdflatex builders find the
 * files a LaTeX document pulls in, written out as the backtracking
 * matcher of Python's `re` module runs them with `re.MULTILINE` (so `^`
 * holds at the start of the text and just after each newline) and
 * `re.IGNORECASE`, with which both builders compile them.
 *
 *   MemLatex         ^[^%\r\n]*\\(?:input|include){(.*?)}
 *   MemGraphic       ^[^%\r\n]*\\(?:includegraphics)(?:\s*\[.*\]\s*)?{(.*?)}
 *   UnderscoreLatex  ^\s*\\(?:input|include){(.*)}
 *
 * `.` never matches a newline; `\s` is any of space, tab, newline,
 * carriage return, form feed and vertical tab.
 */
module TexScan {
  import opened Wrappers
  import opened Paths

  datatype Pattern = MemLatex | MemGraphic | UnderscoreLatex

  /** One match: the text of the group and the index just past the match. */
  datatype Match = Match(group: string, end: nat)

  predicate IsSpace(c: char) {
    c == ' ' || c == '\t' || c == '\n' || c == '\r' || c == 12 as char || c == 11 as char
  }

  /** `^` under `re.MULTILINE`. */
  predicate LineStart(s: string, j: nat)
    requires j <= |s|
  {
    j == 0 || s[j - 1] == '\n'
  }

  /** The index of the first newline at or after i, or |s|: where `.*` stops. */
  function LineEnd(s: string, i: nat): (e: nat)
    requires i <= |s|
    ensures i <= e <= |s|
    ensures e < |s| ==> s[e] == '\n'
    decreases |s| - i
  {
    if i == |s| || s[i] == '\n' then i else LineEnd(s, i + 1)
  }

  /** Where a greedy `\s*` starting at i stops. */
  function SkipSpace(s: string, i: nat): (e: nat)
    requires i <= |s|
    ensures i <= e <= |s|
    ensures e < |s| ==> !IsSpace(s[e])
    decreases |s| - i
  {
    if i == |s| || !IsSpace(s[i]) then i else SkipSpace(s, i + 1)
  }

  /** Where a greedy `[^%\r\n]*` starting at i stops. */
  function CommentFreeEnd(s: string, i: nat): (e: nat)
    requires i <= |s|
    ensures i <= e <= |s|
    ensures e < |s| ==> s[e] in "%\r\n"
    decreases |s| - i
  {
    if i == |s| || s[i] in "%\r\n" then i else CommentFreeEnd(s, i + 1)
  }

  /** The lower-case ASCII word w occurs at k, whatever the case of s. */
  predicate WordAt(s: string, k: nat, w: string) {
    k + |w| <= |s| && forall i :: 0 <= i < |w| ==> LowerChar(s[k + i]) == w[i]
  }

  /** `\\(?:input|include){` at k: the index of its brace. */
  function DirectiveBrace(s: string, k: nat): (b: Option<nat>)
    ensures b.Some? ==> k < b.value < |s| && s[k] == '\\' && s[b.value] == '{'
  {
    if k < |s| && s[k] == '\\' then
      if WordAt(s, k + 1, "input") && k + 6 < |s| && s[k + 6] == '{' then Some(k + 6)
      else if WordAt(s, k + 1, "include") && k + 8 < |s| && s[k + 8] == '{' then Some(k + 8)
      else None
    else None
  }

  /** Lazy `(.*?)}` from i: the first '}' before the end of the line. */
  function FirstClose(s: string, i: nat): (c: Option<nat>)
    requires i <= |s|
    ensures c.Some? ==> i <= c.value < LineEnd(s, i) && s[c.value] == '}'
    decreases |s| - i
  {
    if i == |s| || s[i] == '\n' then None
    else if s[i] == '}' then Some(i)
    else FirstClose(s, i + 1)
  }

  /** Greedy `(.*)}` from i: the last '}' before the end of the line. */
  function LastClose(s: string, i: nat): (c: Option<nat>)
    requires i <= |s|
    ensures c.Some? ==> i <= c.value < |s| && s[c.value] == '}'
  {
    LastCloseBefore(s, i, LineEnd(s, i))
  }

  /** The last '}' among the indices i..e-1, found by backtracking from e. */
  function LastCloseBefore(s: string, i: nat, e: nat): (c: Option<nat>)
    requires i <= e <= |s|
    ensures c.Some? ==> i <= c.value < e && s[c.value] == '}'
    decreases e - i
  {
    if e == i then None
    else if s[e - 1] == '}' then Some(e - 1)
    else LastCloseBefore(s, i, e - 1)
  }

  /** `{(.*?)}` at i. */
  function LazyGroup(s: string, i: nat): (m: Option<Match>)
    requires i <= |s|
    ensures m.Some? ==> i < m.value.end <= |s|
  {
    if i < |s| && s[i] == '{' then
      match FirstClose(s, i + 1)
      case None => None
      case Some(c) => Some(Match(s[i + 1..c], c + 1))
    else None
  }

  /** The input or include directive of MemLatex with its backslash at k. */
  function LatexDirectiveAt(s: string, k: nat): (m: Option<Match>)
    ensures m.Some? ==> k < m.value.end <= |s|
  {
    match DirectiveBrace(s, k)
    case None => None
    case Some(b) => LazyGroup(s, b)
  }

  /** The backtracking of a greedy `.*` or `[^%\r\n]*`: the rest of the
      pattern is tried at hi-1, hi-2, ..., lo in turn, and the first
      position where it matches gives the match. */
  function LastHit(at: nat -> Option<Match>, lo: nat, hi: nat): Option<Match>
    decreases hi - lo
  {
    if hi <= lo then None
    else
      var m := at(hi - 1);
      if m.Some? then m else LastHit(at, lo, hi - 1)
  }

  /** The backtracking returns a match found at one of the positions it
      tries. */
  lemma {:induction false} LastHitWithin(at: nat -> Option<Match>, lo: nat, hi: nat)
    ensures LastHit(at, lo, hi).Some? ==> exists i :: lo <= i < hi && at(i) == LastHit(at, lo, hi)
    decreases hi - lo
  {
    if lo < hi && at(hi - 1).None? {
      LastHitWithin(at, lo, hi - 1);
    }
  }

  /** `\]\s*{(.*?)}` with the ']' at r. */
  function OptionsAt(s: string, r: nat): (m: Option<Match>)
    ensures m.Some? ==> r < m.value.end <= |s|
  {
    if r < |s| && s[r] == ']' then LazyGroup(s, SkipSpace(s, r + 1)) else None
  }

  /** `\]\s*{(.*?)}` with the ']' at one of the indices lo..hi-1, the last
      tried first, as the greedy `.*` before it backtracks. */
  function OptionsClose(s: string, lo: nat, hi: nat): (m: Option<Match>)
    ensures m.Some? ==> lo < m.value.end <= |s|
  {
    LastHitWithin(OptionsIn(s), lo, hi);
    LastHit(OptionsIn(s), lo, hi)
  }

  /** OptionsAt with the text fixed. */
  function OptionsIn(s: string): nat -> Option<Match> {
    (r: nat) => OptionsAt(s, r)
  }

  /** The includegraphics directive of MemGraphic with its backslash at k:
      the optional `\s*\[.*\]\s*` is tried first, then skipped. */
  function GraphicDirectiveAt(s: string, k: nat): (m: Option<Match>)
    ensures m.Some? ==> k < m.value.end <= |s|
  {
    if k < |s| && s[k] == '\\' && WordAt(s, k + 1, "includegraphics") then GraphicArgument(s, k + 16)
    else None
  }

  /** The argument of includegraphics, the directive name ending at q. */
  function GraphicArgument(s: string, q: nat): (m: Option<Match>)
    requires q <= |s|
    ensures m.Some? ==> q < m.value.end <= |s|
  {
    var withOptions := OptionsAfter(s, SkipSpace(s, q));
    if withOptions.Some? then withOptions else LazyGroup(s, q)
  }

  /** `\[.*\]\s*{(.*?)}` with the '[' at w. */
  function OptionsAfter(s: string, w: nat): (m: Option<Match>)
    ensures m.Some? ==> w < m.value.end <= |s|
  {
    if w < |s| && s[w] == '[' then OptionsClose(s, w + 1, LineEnd(s, w + 1)) else None
  }

  /** The directive of MemLatex or MemGraphic, trying the comment-free
      prefix `[^%\r\n]*` from its longest (ending at k) down to empty
      (ending at j). */
  function PrefixedMatch(p: Pattern, s: string, j: nat, k: nat): (m: Option<Match>)
    requires p != UnderscoreLatex && j <= k <= |s|
    ensures m.Some? ==> j < m.value.end <= |s|
  {
    LastHitWithin(DirectivesIn(p, s), j, k + 1);
    LastHit(DirectivesIn(p, s), j, k + 1)
  }

  /** DirectiveAt with the pattern and the text fixed. */
  function DirectivesIn(p: Pattern, s: string): nat -> Option<Match>
    requires p != UnderscoreLatex
  {
    (k: nat) => DirectiveAt(p, s, k)
  }

  /** The directive of MemLatex or MemGraphic with its backslash at k. */
  function DirectiveAt(p: Pattern, s: string, k: nat): (m: Option<Match>)
    requires p != UnderscoreLatex
    ensures m.Some? ==> k < m.value.end <= |s| && s[k] == '\\'
  {
    if p == MemLatex then LatexDirectiveAt(s, k) else GraphicDirectiveAt(s, k)
  }

  /** The match of pattern p that starts at j, if there is one. */
  function MatchAt(p: Pattern, s: string, j: nat): (m: Option<Match>)
    requires j <= |s|
    ensures m.Some? ==> j < m.value.end <= |s|
  {
    if p == UnderscoreLatex then LeadingMatch(s, j)
    else PrefixedMatch(p, s, j, CommentFreeEnd(s, j))
  }

  /** UnderscoreLatex from j: white space, then the directive, then the
      group up to the last '}' of the line. */
  function LeadingMatch(s: string, j: nat): (m: Option<Match>)
    requires j <= |s|
    ensures m.Some? ==> j < m.value.end <= |s|
  {
    match DirectiveBrace(s, SkipSpace(s, j))
    case None => None
    case Some(b) =>
      match LastClose(s, b + 1)
      case None => None
      case Some(c) => Some(Match(s[b + 1..c], c + 1))
  }

  /** `re.findall(p, s[pos:])` restricted to matches that start at or after
      pos: the groups of the successive matches, each search resuming where
      the previous match ended. */
  function FindAll(p: Pattern, s: string, pos: nat): seq<string>
    decreases |s| - pos
  {
    if pos > |s| then []
    else if LineStart(s, pos) && MatchAt(p, s, pos).Some? then
      var m := MatchAt(p, s, pos).value;
      [m.group] + FindAll(p, s, m.end)
    else FindAll(p, s, pos + 1)
  }

  /** The groups found in a whole text. */
  function Groups(p: Pattern, s: string): seq<string> {
    FindAll(p, s, 0)
  }

  /** No character of x is one of cs. */
  predicate NoneOf(x: string, cs: string) {
    |x| == 0 || (x[0] !in cs && NoneOf(x[1..], cs))
  }

  lemma {:induction false} NoneOfAt(x: string, cs: string, i: nat)
    requires NoneOf(x, cs) && i < |x|
    ensures x[i] !in cs
  {
    if i > 0 {
      NoneOfAt(x[1..], cs, i - 1);
    }
  }

  lemma NoneOfEvery(x: string, cs: string)
    requires NoneOf(x, cs)
    ensures forall i :: 0 <= i < |x| ==> x[i] !in cs
  {
    forall i | 0 <= i < |x| {
      NoneOfAt(x, cs, i);
    }
  }

  lemma {:induction false} NoneOfConcat(x: string, y: string, cs: string)
    ensures NoneOf(x + y, cs) == (NoneOf(x, cs) && NoneOf(y, cs))
  {
    if |x| == 0 {
      assert x + y == y;
    } else {
      assert (x + y)[1..] == x[1..] + y;
      NoneOfConcat(x[1..], y, cs);
    }
  }

  /** The characters of a suffix with none of cs. */
  lemma NoneAfter(s: string, c: nat, cs: string)
    requires c <= |s| && NoneOf(s[c..], cs)
    ensures forall i :: c <= i < |s| ==> s[i] !in cs
  {
    NoneOfEvery(s[c..], cs);
    forall i | c <= i < |s| ensures s[i] !in cs {
      assert s[i] == s[c..][i - c];
    }
  }

  /** On a single line, `.*` runs to the end of the text. */
  lemma OneLineEnd(s: string, i: nat)
    requires i <= |s| && NoneOf(s, "\n")
    ensures LineEnd(s, i) == |s|
  {
    NoneOfEvery(s, "\n");
  }

  lemma {:induction false} NoneOfFewer(x: string, cs: string, ds: string)
    requires NoneOf(x, cs) && forall c :: c in ds ==> c in cs
    ensures NoneOf(x, ds)
  {
    if |x| > 0 {
      NoneOfFewer(x[1..], cs, ds);
    }
  }

  /** No match starts inside a line: from a position that is not a line
      start the search moves on to the next line, whatever the pattern. */
  lemma {:induction false} SkipToLineStart(p: Pattern, s: string, pos: nat)
    requires 0 < pos <= |s| && forall k :: pos - 1 <= k < |s| - 1 ==> s[k] != '\n'
    ensures FindAll(p, s, pos) == []
    decreases |s| - pos
  {
    if pos < |s| {
      SkipToLineStart(p, s, pos + 1);
    }
  }

  /** A single-line text contributes the match at its start, if any. */
  lemma OneLine(p: Pattern, s: string)
    requires NoneOf(s, "\n")
    ensures Groups(p, s) == (if MatchAt(p, s, 0).Some? then [MatchAt(p, s, 0).value.group] else [])
  {
    NoneOfEvery(s, "\n");
    if MatchAt(p, s, 0).Some? {
      SkipToLineStart(p, s, MatchAt(p, s, 0).value.end);
    } else if 1 <= |s| {
      SkipToLineStart(p, s, 1);
      assert FindAll(p, s, 0) == FindAll(p, s, 1);
    } else {
      assert FindAll(p, s, 0) == FindAll(p, s, 1) == [];
    }
  }

  /** mem/tasks/pdflatex.py: a `%` comment hides the rest of its line.
      On a line where no directive of p starts before the first `%`,
      neither MemLatex nor MemGraphic finds anything. */
  lemma {:induction false} CommentHides(p: Pattern, s: string, pct: nat)
    requires p != UnderscoreLatex
    requires NoneOf(s, "\n") && pct < |s| && s[pct] == '%'
    requires forall k :: 0 <= k < pct ==> DirectiveAt(p, s, k).None?
    ensures Groups(p, s) == []
  {
    CommentMiss(p, s, pct);
    OneLine(p, s);
  }

  /** Nothing matches from the start of a line whose directives all lie
      after its first `%`. */
  lemma CommentMiss(p: Pattern, s: string, pct: nat)
    requires p != UnderscoreLatex
    requires pct < |s| && s[pct] == '%'
    requires forall k :: 0 <= k < pct ==> DirectiveAt(p, s, k).None?
    ensures MatchAt(p, s, 0).None?
  {
    CommentPrefixMiss(p, s, pct);
    assert MatchAt(p, s, 0) == PrefixedMatch(p, s, 0, CommentFreeEnd(s, 0));
  }

  lemma CommentPrefixMiss(p: Pattern, s: string, pct: nat)
    requires p != UnderscoreLatex
    requires pct < |s| && s[pct] == '%'
    requires forall k :: 0 <= k < pct ==> DirectiveAt(p, s, k).None?
    ensures PrefixedMatch(p, s, 0, CommentFreeEnd(s, 0)).None?
  {
    var r := CommentFreeEnd(s, 0);
    if pct < r {
      CommentFreeEndSkips(s, 0, pct);
    }
    NoDirectivesUpTo(p, s, pct);
    PrefixMiss(p, s, 0, r);
  }

  /** The `%` at pct starts no directive either. */
  lemma NoDirectivesUpTo(p: Pattern, s: string, pct: nat)
    requires p != UnderscoreLatex
    requires pct < |s| && s[pct] == '%'
    requires forall k :: 0 <= k < pct ==> DirectiveAt(p, s, k).None?
    ensures forall k :: 0 <= k <= pct ==> DirectiveAt(p, s, k).None?
  {
  }

  lemma PrefixMiss(p: Pattern, s: string, j: nat, k: nat)
    requires p != UnderscoreLatex && j <= k <= |s|
    requires forall i :: j <= i <= k && i < |s| ==> DirectiveAt(p, s, i).None?
    ensures PrefixedMatch(p, s, j, k).None?
  {
    forall i | j <= i < k + 1 ensures DirectivesIn(p, s)(i).None? {
      assert DirectivesIn(p, s)(i) == DirectiveAt(p, s, i);
    }
    LastHitFrom(DirectivesIn(p, s), j, j, k + 1);
  }

  /** Positions where nothing matches are passed over: the search from hi
      finds what the search from mid finds. */
  lemma {:induction false} LastHitFrom(at: nat -> Option<Match>, lo: nat, mid: nat, hi: nat)
    requires lo <= mid <= hi
    requires forall i :: mid <= i < hi ==> at(i).None?
    ensures LastHit(at, lo, hi) == LastHit(at, lo, mid)
    decreases hi - mid
  {
    if hi > mid {
      LastHitFrom(at, lo, mid, hi - 1);
    }
  }

  /** mem_/tasks/pdflatex.py: a directive counts only when nothing but
      white space comes before it on its line. */
  lemma LeadingTextHides(s: string)
    requires NoneOf(s, "\n") && |s| > 0 && !IsSpace(s[0]) && s[0] != '\\'
    ensures Groups(UnderscoreLatex, s) == []
  {
    OneLine(UnderscoreLatex, s);
  }

  /** The brace of an input or include directive whose backslash is at k. */
  lemma BraceOf(s: string, k: nat, word: string)
    requires word == "input" || word == "include"
    requires k + |word| + 1 < |s| && s[k] == '\\' && WordAt(s, k + 1, word)
    requires s[k + 1 + |word|] == '{'
    ensures DirectiveBrace(s, k) == Some(k + 1 + |word|)
  {
    if word == "include" {
      assert LowerChar(s[k + 3]) == "include"[2] == 'c' != "input"[2];
    }
  }

  /** mem_/tasks/pdflatex.py, on one line: leading white space, a directive,
      and a group that runs to the last '}' of the line. */
  lemma LeadingAt(s: string, k: nat, word: string, c: nat)
    requires word == "input" || word == "include"
    requires NoneOf(s, "\n") && k + |word| + 1 < c < |s|
    requires forall i :: 0 <= i < k ==> IsSpace(s[i])
    requires s[k] == '\\' && WordAt(s, k + 1, word) && s[k + 1 + |word|] == '{'
    requires s[c] == '}' && NoneOf(s[c + 1..], "}")
    ensures Groups(UnderscoreLatex, s) == [s[k + |word| + 2..c]]
  {
    LeadingMatchIs(s, k, word, c);
    OneLine(UnderscoreLatex, s);
  }

  lemma LeadingMatchIs(s: string, k: nat, word: string, c: nat)
    requires word == "input" || word == "include"
    requires NoneOf(s, "\n") && k + |word| + 1 < c < |s|
    requires forall i :: 0 <= i < k ==> IsSpace(s[i])
    requires s[k] == '\\' && WordAt(s, k + 1, word) && s[k + 1 + |word|] == '{'
    requires s[c] == '}' && NoneOf(s[c + 1..], "}")
    ensures LeadingMatch(s, 0) == Some(Match(s[k + |word| + 2..c], c + 1))
  {
    SkipSpaceIs(s, 0, k);
    BraceOf(s, k, word);
    var b := k + 1 + |word|;
    LastCloseOnLine(s, b + 1, c);
    LeadingMatchOf(s, 0, b, c);
  }

  /** The UnderscoreLatex match is put together from its directive's brace
      and the last '}' after it. */
  lemma LeadingMatchOf(s: string, j: nat, b: nat, c: nat)
    requires j <= |s| && DirectiveBrace(s, SkipSpace(s, j)) == Some(b)
    requires b + 1 <= |s| && LastClose(s, b + 1) == Some(c)
    ensures LeadingMatch(s, j) == Some(Match(s[b + 1..c], c + 1))
  {
  }

  /** On a single line, greedy `(.*)}` ends at the last '}'. */
  lemma LastCloseOnLine(s: string, i: nat, c: nat)
    requires NoneOf(s, "\n") && i <= c < |s| && s[c] == '}' && NoneOf(s[c + 1..], "}")
    ensures LastClose(s, i) == Some(c)
  {
    OneLineEnd(s, i);
    NoneAfter(s, c + 1, "}");
    LastCloseIs(s, i, c);
  }

  /** `.*` stops at the first newline: there is none from i up to
      LineEnd(s, i). */
  lemma {:induction false} LineEndSkips(s: string, i: nat, k: nat)
    requires i <= |s| && i <= k < LineEnd(s, i)
    ensures s[k] != '\n'
    decreases |s| - i
  {
    if i < k {
      LineEndSkips(s, i + 1, k);
    }
  }

  /** A greedy `\s*` passes over white space only. */
  lemma {:induction false} SkipSpaceSkips(s: string, i: nat, k: nat)
    requires i <= |s| && i <= k < SkipSpace(s, i)
    ensures IsSpace(s[k])
    decreases |s| - i
  {
    if i < k {
      SkipSpaceSkips(s, i + 1, k);
    }
  }

  /** `[^%\r\n]*` stops at the first `%`, carriage return or newline. */
  lemma {:induction false} CommentFreeEndSkips(s: string, i: nat, k: nat)
    requires i <= |s| && i <= k < CommentFreeEnd(s, i)
    ensures s[k] !in "%\r\n"
    decreases |s| - i
  {
    if i < k {
      CommentFreeEndSkips(s, i + 1, k);
    }
  }

  /** Lazy `(.*?)}` passes over no `}`: none lies before the one it stops
      at, nor, when it finds none, before the end of the line. */
  lemma {:induction false} FirstCloseSkips(s: string, i: nat, k: nat)
    requires i <= |s| && i <= k
    requires k < (if FirstClose(s, i).Some? then FirstClose(s, i).value else LineEnd(s, i))
    ensures s[k] != '}'
    decreases |s| - i
  {
    if i < k {
      FirstCloseSkips(s, i + 1, k);
    }
  }

  /** The backtracking of greedy `(.*)}` passes over no `}`: none lies after
      the one it stops at, nor, when it finds none, anywhere in i..e-1. */
  lemma {:induction false} LastCloseBeforeSkips(s: string, i: nat, e: nat, k: nat)
    requires i <= k < e <= |s|
    requires LastCloseBefore(s, i, e).Some? ==> LastCloseBefore(s, i, e).value < k
    ensures s[k] != '}'
    decreases e - i
  {
    if k < e - 1 {
      LastCloseBeforeSkips(s, i, e - 1, k);
    }
  }

  lemma {:induction false} SkipSpaceIs(s: string, i: nat, e: nat)
    requires i <= e < |s| && !IsSpace(s[e])
    requires forall k :: i <= k < e ==> IsSpace(s[k])
    ensures SkipSpace(s, i) == e
    decreases e - i
  {
    if i < e {
      SkipSpaceIs(s, i + 1, e);
    }
  }

  lemma LastCloseIs(s: string, i: nat, c: nat)
    requires i <= c < |s| && s[c] == '}' && LineEnd(s, i) == |s|
    requires forall k :: c < k < |s| ==> s[k] != '}'
    ensures LastClose(s, i) == Some(c)
  {
    LastCloseBeforeIs(s, i, c, |s|);
  }

  lemma {:induction false} LastCloseBeforeIs(s: string, i: nat, c: nat, e: nat)
    requires i <= c < e <= |s| && s[c] == '}'
    requires forall k :: c < k < e ==> s[k] != '}'
    ensures LastCloseBefore(s, i, e) == Some(c)
    decreases e
  {
    if e - 1 > c {
      LastCloseBeforeIs(s, i, c, e - 1);
    }
  }

  lemma {:induction false} FirstCloseIs(s: string, i: nat, c: nat)
    requires i <= c < |s| && s[c] == '}'
    requires forall k :: i <= k < c ==> s[k] != '}' && s[k] != '\n'
    ensures FirstClose(s, i) == Some(c)
    decreases c - i
  {
    if i < c {
      FirstCloseIs(s, i + 1, c);
    }
  }

  lemma LazyGroupIs(s: string, b: nat, c: nat)
    requires b < c < |s| && s[b] == '{' && s[c] == '}'
    requires NoneOf(s, "\n") && NoneOf(s[b + 1..c], "}")
    ensures LazyGroup(s, b) == Some(Match(s[b + 1..c], c + 1))
  {
    NoneOfEvery(s, "\n");
    NoneOfEvery(s[b + 1..c], "}");
    forall i | b + 1 <= i < c ensures s[i] != '}' {
      assert s[i] == s[b + 1..c][i - b - 1];
    }
    FirstCloseIs(s, b + 1, c);
  }

  /** Without a backslash no directive starts. */
  lemma NoDirectivesAt(p: Pattern, s: string, lo: nat, hi: nat)
    requires p != UnderscoreLatex
    requires forall i :: lo <= i < hi && i < |s| ==> s[i] != '\\'
    ensures forall i :: lo <= i < hi ==> DirectivesIn(p, s)(i).None?
  {
    forall i | lo <= i < hi ensures DirectivesIn(p, s)(i).None? {
      assert DirectivesIn(p, s)(i) == DirectiveAt(p, s, i);
    }
  }

  /** The backtracking reaches rb when nothing matches after it. */
  lemma LastHitAt(at: nat -> Option<Match>, lo: nat, rb: nat, hi: nat)
    requires lo <= rb < hi && at(rb).Some?
    requires forall i :: rb < i < hi ==> at(i).None?
    ensures LastHit(at, lo, hi) == at(rb)
  {
    LastHitFrom(at, lo, rb + 1, hi);
  }

  /** The line facts shared by the MemLatex and MemGraphic lemmas: with no
      `%` or carriage return before the backslash at k and no backslash
      after it, the match of the line is the directive at k. */
  lemma LastBackslash(p: Pattern, s: string, k: nat)
    requires p != UnderscoreLatex && k < |s| && s[k] == '\\'
    requires NoneOf(s, "\n") && NoneOf(s[..k], "%\r") && NoneOf(s[k + 1..], "\\")
    requires DirectiveAt(p, s, k).Some?
    ensures Groups(p, s) == [DirectiveAt(p, s, k).value.group]
  {
    var r := CommentFreeEnd(s, 0);
    CommentFreePast(s, k);
    NoneAfter(s, k + 1, "\\");
    MatchIsLastDirective(p, s, k);
    OneLine(p, s);
  }

  /** When no backslash lies after k and the comment-free prefix runs past
      it, the backtracking lands on k. */
  lemma MatchIsLastDirective(p: Pattern, s: string, k: nat)
    requires p != UnderscoreLatex && k < |s| && CommentFreeEnd(s, 0) > k
    requires forall i :: k < i < |s| ==> s[i] != '\\'
    requires DirectiveAt(p, s, k).Some?
    ensures MatchAt(p, s, 0) == DirectiveAt(p, s, k)
  {
    var r := CommentFreeEnd(s, 0);
    NoDirectivesAt(p, s, k + 1, r + 1);
    assert DirectivesIn(p, s)(k) == DirectiveAt(p, s, k);
    DirectiveLastHit(p, s, k, r);
    assert MatchAt(p, s, 0) == PrefixedMatch(p, s, 0, r);
  }

  lemma DirectiveLastHit(p: Pattern, s: string, k: nat, r: nat)
    requires p != UnderscoreLatex && k <= r
    requires forall i :: k < i < r + 1 ==> DirectivesIn(p, s)(i).None?
    requires DirectivesIn(p, s)(k).Some?
    ensures LastHit(DirectivesIn(p, s), 0, r + 1) == DirectivesIn(p, s)(k)
  {
    LastHitAt(DirectivesIn(p, s), 0, k, r + 1);
  }

  /** With no `%` or carriage return before k on a single line, the
      comment-free prefix runs past k. */
  lemma CommentFreePast(s: string, k: nat)
    requires k < |s| && s[k] == '\\'
    requires NoneOf(s, "\n") && NoneOf(s[..k], "%\r")
    ensures CommentFreeEnd(s, 0) > k
  {
    NoneOfEvery(s, "\n");
    NoneOfEvery(s[..k], "%\r");
    forall i | 0 <= i <= k ensures s[i] !in "%\r\n" {
      if i < k {
        assert s[i] == s[..k][i];
      }
    }
  }

  /** mem/tasks/pdflatex.py: an input or include directive is found
      wherever it stands on a line with no `%` or carriage return before it
      and no backslash after it; its group ends at the first '}'. */
  lemma InputAt(s: string, k: nat, word: string, c: nat)
    requires word == "input" || word == "include"
    requires k + |word| + 1 < c < |s|
    requires NoneOf(s, "\n") && NoneOf(s[..k], "%\r") && NoneOf(s[k + 1..], "\\")
    requires s[k] == '\\' && WordAt(s, k + 1, word) && s[k + 1 + |word|] == '{'
    requires s[c] == '}' && NoneOf(s[k + |word| + 2..c], "}")
    ensures Groups(MemLatex, s) == [s[k + |word| + 2..c]]
  {
    var b := k + 1 + |word|;
    BraceOf(s, k, word);
    LazyGroupIs(s, b, c);
    assert DirectiveAt(MemLatex, s, k) == Some(Match(s[b + 1..c], c + 1));
    LastBackslash(MemLatex, s, k);
  }

  /** mem/tasks/pdflatex.py: an includegraphics directive with no option
      list, on a line with no `%` or carriage return before it and no
      backslash after it, is found; its group ends at the first '}'. */
  lemma GraphicAt(s: string, k: nat, c: nat)
    requires k + 16 < c < |s|
    requires NoneOf(s, "\n") && NoneOf(s[..k], "%\r") && NoneOf(s[k + 1..], "\\")
    requires s[k] == '\\' && WordAt(s, k + 1, "includegraphics") && s[k + 16] == '{'
    requires s[c] == '}' && NoneOf(s[k + 17..c], "}")
    ensures Groups(MemGraphic, s) == [s[k + 17..c]]
  {
    assert SkipSpace(s, k + 16) == k + 16;
    LazyGroupIs(s, k + 16, c);
    assert DirectiveAt(MemGraphic, s, k) == Some(Match(s[k + 17..c], c + 1));
    LastBackslash(MemGraphic, s, k);
  }

  /** mem/tasks/pdflatex.py: the same with an option list in brackets,
      white space allowed around it: the option list is skipped (up to the
      last ']' of the line) and the group again ends at the first '}'. */
  lemma GraphicWithOptionsAt(s: string, k: nat, w: nat, r: nat, b: nat, c: nat)
    requires k + 16 <= w < r < b < c < |s|
    requires NoneOf(s, "\n") && NoneOf(s[..k], "%\r") && NoneOf(s[k + 1..], "\\")
    requires s[k] == '\\' && WordAt(s, k + 1, "includegraphics")
    requires forall i :: k + 16 <= i < w ==> IsSpace(s[i])
    requires s[w] == '[' && s[r] == ']' && NoneOf(s[r + 1..], "]")
    requires forall i :: r < i < b ==> IsSpace(s[i])
    requires s[b] == '{' && s[c] == '}' && NoneOf(s[b + 1..c], "}")
    ensures Groups(MemGraphic, s) == [s[b + 1..c]]
  {
    GraphicDirectiveWithOptions(s, k, w, r, b, c);
    assert DirectiveAt(MemGraphic, s, k) == Some(Match(s[b + 1..c], c + 1));
    LastBackslash(MemGraphic, s, k);
  }

  lemma GraphicDirectiveWithOptions(s: string, k: nat, w: nat, r: nat, b: nat, c: nat)
    requires k + 16 <= w < r < b < c < |s|
    requires NoneOf(s, "\n") && s[k] == '\\' && WordAt(s, k + 1, "includegraphics")
    requires forall i :: k + 16 <= i < w ==> IsSpace(s[i])
    requires s[w] == '[' && s[r] == ']' && NoneOf(s[r + 1..], "]")
    requires forall i :: r < i < b ==> IsSpace(s[i])
    requires s[b] == '{' && s[c] == '}' && NoneOf(s[b + 1..c], "}")
    ensures GraphicDirectiveAt(s, k) == Some(Match(s[b + 1..c], c + 1))
  {
    SkipSpaceIs(s, k + 16, w);
    OptionsPart(s, w, r, b, c);
    GraphicDirectiveOf(s, k, w, Match(s[b + 1..c], c + 1));
  }

  /** The includegraphics directive at k takes its option list when one
      starts at w and closes. */
  lemma GraphicDirectiveOf(s: string, k: nat, w: nat, m: Match)
    requires k < |s| && s[k] == '\\' && WordAt(s, k + 1, "includegraphics")
    requires SkipSpace(s, k + 16) == w < |s| && s[w] == '['
    requires OptionsClose(s, w + 1, LineEnd(s, w + 1)) == Some(m)
    ensures GraphicDirectiveAt(s, k) == Some(m)
  {
    assert OptionsAfter(s, w) == Some(m);
    assert GraphicArgument(s, k + 16) == Some(m);
  }

  /** The option list from the '[' at w to the ']' at r, then the group
      from the '{' at b to the '}' at c. */
  lemma OptionsPart(s: string, w: nat, r: nat, b: nat, c: nat)
    requires w < r < b < c < |s|
    requires NoneOf(s, "\n") && s[r] == ']' && NoneOf(s[r + 1..], "]")
    requires forall i :: r < i < b ==> IsSpace(s[i])
    requires s[b] == '{' && s[c] == '}' && NoneOf(s[b + 1..c], "}")
    ensures OptionsClose(s, w + 1, LineEnd(s, w + 1)) == Some(Match(s[b + 1..c], c + 1))
  {
    SkipSpaceIs(s, r + 1, b);
    LazyGroupIs(s, b, c);
    assert OptionsAt(s, r) == Some(Match(s[b + 1..c], c + 1));
    OneLineEnd(s, w + 1);
    NoneAfter(s, r + 1, "]");
    OptionsCloseFrom(s, w + 1, r, |s|);
  }

  /** The backtracking over ']' positions reaches rb when none lies after it. */
  lemma OptionsCloseFrom(s: string, lo: nat, rb: nat, hi: nat)
    requires lo <= rb < hi <= |s|
    requires forall i :: rb < i < hi ==> s[i] != ']'
    requires OptionsAt(s, rb).Some?
    ensures OptionsClose(s, lo, hi) == OptionsAt(s, rb)
  {
    NoOptionsAt(s, rb + 1, hi);
    assert OptionsIn(s)(rb) == OptionsAt(s, rb);
    LastHitAt(OptionsIn(s), lo, rb, hi);
  }

  /** Without a ']' there is no option list to close. */
  lemma NoOptionsAt(s: string, lo: nat, hi: nat)
    requires forall i :: lo <= i < hi && i < |s| ==> s[i] != ']'
    ensures forall i :: lo <= i < hi ==> OptionsIn(s)(i).None?
  {
    forall i | lo <= i < hi ensures OptionsIn(s)(i).None? {
      assert OptionsIn(s)(i) == OptionsAt(s, i);
    }
  }
}
