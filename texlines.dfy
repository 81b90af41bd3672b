/**
 * How the patterns of TexScan treat a text of several lines. A match never
 * looks at the text before the position it starts from, so the matches in
 * the part after a newline are those of that part on its own. A MemLatex
 * match never runs past the end of its line, so a text's groups are those
 * of its first line followed by those of the rest. MemGraphic and
 * UnderscoreLatex behave the same way only where their `\s*` cannot carry
 * a match over the newline.
 */
module TexLines {
  import opened Wrappers
  import opened Paths
  import opened TexScan

  /** An index found in the part of a text after its first d characters,
      as an index into the whole text. */
  function ShiftIndex(o: Option<nat>, d: nat): Option<nat> {
    match o
    case None => None
    case Some(i) => Some(d + i)
  }

  /** A match found in the part of a text after its first d characters, as
      a match in the whole text: the same group, the end moved by d. */
  function ShiftMatch(o: Option<Match>, d: nat): Option<Match> {
    match o
    case None => None
    case Some(m) => Some(Match(m.group, d + m.end))
  }

  /** From index d on, s holds b: s is some nonempty text of length d
      followed by b. */
  predicate TailOf(s: string, d: nat, b: string) {
    0 < d && |s| == d + |b| && forall i :: 0 <= i < |b| ==> s[d + i] == b[i]
  }

  /** s starts with a and a newline: a is the first line of s, or the
      lines before its last line break. */
  predicate LineOf(s: string, a: string) {
    |a| < |s| && s[|a|] == '\n' && forall i :: 0 <= i < |a| ==> s[i] == a[i]
  }

  /** The closure at tried at d + i gives what at' gives at i, moved by d,
      for every i in lo..hi-1. */
  predicate Shifted(at: nat -> Option<Match>, at': nat -> Option<Match>, d: nat, lo: nat, hi: nat) {
    forall i :: lo <= i < hi ==> at(d + i) == ShiftMatch(at'(i), d)
  }

  /** Two closures give the same result at every i in lo..hi-1. */
  predicate Agree(at: nat -> Option<Match>, at': nat -> Option<Match>, lo: nat, hi: nat) {
    forall i :: lo <= i < hi ==> at(i) == at'(i)
  }

  // ---------------------------------------------------------------------
  // A match never looks behind the position it starts from.
  // ---------------------------------------------------------------------

  lemma {:induction false} LineEndShift(s: string, d: nat, b: string, i: nat, i': nat)
    requires TailOf(s, d, b) && i <= |b| && i' == d + i
    ensures LineEnd(s, i') == d + LineEnd(b, i)
    decreases |b| - i
  {
    if i < |b| && b[i] != '\n' {
      LineEndShift(s, d, b, i + 1, i' + 1);
    }
  }

  lemma {:induction false} SkipSpaceShift(s: string, d: nat, b: string, i: nat, i': nat)
    requires TailOf(s, d, b) && i <= |b| && i' == d + i
    ensures SkipSpace(s, i') == d + SkipSpace(b, i)
    decreases |b| - i
  {
    if i < |b| && IsSpace(b[i]) {
      SkipSpaceShift(s, d, b, i + 1, i' + 1);
    }
  }

  lemma {:induction false} CommentFreeEndShift(s: string, d: nat, b: string, i: nat, i': nat)
    requires TailOf(s, d, b) && i <= |b| && i' == d + i
    ensures CommentFreeEnd(s, i') == d + CommentFreeEnd(b, i)
    decreases |b| - i
  {
    if i < |b| && b[i] !in "%\r\n" {
      CommentFreeEndShift(s, d, b, i + 1, i' + 1);
    }
  }

  lemma {:induction false} FirstCloseShift(s: string, d: nat, b: string, i: nat, i': nat)
    requires TailOf(s, d, b) && i <= |b| && i' == d + i
    ensures FirstClose(s, i') == ShiftIndex(FirstClose(b, i), d)
    decreases |b| - i
  {
    if i < |b| && b[i] != '\n' && b[i] != '}' {
      FirstCloseShift(s, d, b, i + 1, i' + 1);
    }
  }

  lemma {:induction false} LastCloseBeforeShift(s: string, d: nat, b: string, i: nat, e: nat, i': nat, e': nat)
    requires TailOf(s, d, b) && i <= e <= |b| && i' == d + i && e' == d + e
    ensures LastCloseBefore(s, i', e') == ShiftIndex(LastCloseBefore(b, i, e), d)
    decreases e - i
  {
    if i < e && b[e - 1] != '}' {
      LastCloseBeforeShift(s, d, b, i, e - 1, i', e' - 1);
    }
  }

  /** The text between two indices of b is the same in s. */
  lemma SliceShift(s: string, d: nat, b: string, i: nat, j: nat, i': nat, j': nat)
    requires TailOf(s, d, b) && i <= j <= |b| && i' == d + i && j' == d + j
    ensures s[i'..j'] == b[i..j]
  {
    assert forall k :: 0 <= k < j - i ==> s[i'..j'][k] == s[d + (i + k)] == b[i + k];
  }

  lemma WordAtShift(s: string, d: nat, b: string, k: nat, k': nat, w: string)
    requires TailOf(s, d, b) && k' == d + k
    ensures WordAt(s, k', w) == WordAt(b, k, w)
  {
    if k + |w| <= |b| {
      forall i | 0 <= i < |w|
        ensures LowerChar(s[k' + i]) == w[i] <==> LowerChar(b[k + i]) == w[i]
      {
        assert s[d + (k + i)] == b[k + i];
      }
    }
  }

  lemma DirectiveBraceShift(s: string, d: nat, b: string, k: nat, k': nat)
    requires TailOf(s, d, b) && k' == d + k
    ensures DirectiveBrace(s, k') == ShiftIndex(DirectiveBrace(b, k), d)
  {
    WordAtShift(s, d, b, k + 1, k' + 1, "input");
    WordAtShift(s, d, b, k + 1, k' + 1, "include");
    if k < |b| {
      assert s[d + k] == b[k];
    }
    if k + 6 < |b| {
      assert s[d + (k + 6)] == b[k + 6];
    }
    if k + 8 < |b| {
      assert s[d + (k + 8)] == b[k + 8];
    }
  }

  lemma LazyGroupShift(s: string, d: nat, b: string, i: nat, i': nat)
    requires TailOf(s, d, b) && i <= |b| && i' == d + i
    ensures LazyGroup(s, i') == ShiftMatch(LazyGroup(b, i), d)
  {
    if i < |b| {
      assert s[d + i] == b[i];
      if b[i] == '{' {
        assert FirstClose(s, i' + 1) == ShiftIndex(FirstClose(b, i + 1), d) by {
          FirstCloseShift(s, d, b, i + 1, i' + 1);
        }
        var c := FirstClose(b, i + 1);
        if c.Some? {
          var c' := FirstClose(s, i' + 1).value;
          assert s[i' + 1..c'] == b[i + 1..c.value] by {
            SliceShift(s, d, b, i + 1, c.value, i' + 1, c');
          }
        }
      }
    }
  }

  lemma LatexDirectiveAtShift(s: string, d: nat, b: string, k: nat, k': nat)
    requires TailOf(s, d, b) && k' == d + k
    ensures LatexDirectiveAt(s, k') == ShiftMatch(LatexDirectiveAt(b, k), d)
  {
    assert DirectiveBrace(s, k') == ShiftIndex(DirectiveBrace(b, k), d) by {
      DirectiveBraceShift(s, d, b, k, k');
    }
    var br := DirectiveBrace(b, k);
    if br.Some? {
      var br' := DirectiveBrace(s, k').value;
      assert LazyGroup(s, br') == ShiftMatch(LazyGroup(b, br.value), d) by {
        LazyGroupShift(s, d, b, br.value, br');
      }
    }
  }

  /** Backtracking over positions moved by d finds the match moved by d. */
  lemma {:induction false} LastHitShift(at: nat -> Option<Match>, at': nat -> Option<Match>, d: nat, lo: nat, hi: nat)
    requires Shifted(at, at', d, lo, hi)
    ensures LastHit(at, d + lo, d + hi) == ShiftMatch(LastHit(at', lo, hi), d)
    decreases hi - lo
  {
    if lo < hi {
      assert at(d + (hi - 1)) == ShiftMatch(at'(hi - 1), d);
      if at'(hi - 1).None? {
        LastHitShift(at, at', d, lo, hi - 1);
      }
    }
  }

  /** LastHitShift with the moved bounds given as they are written. */
  lemma LastHitMoved(at: nat -> Option<Match>, at': nat -> Option<Match>, d: nat, lo: nat, hi: nat, lo': nat, hi': nat)
    requires Shifted(at, at', d, lo, hi)
    requires lo' == d + lo && hi' == d + hi
    ensures LastHit(at, lo', hi') == ShiftMatch(LastHit(at', lo, hi), d)
  {
    LastHitShift(at, at', d, lo, hi);
  }

  /** Backtracking over two closures that agree on every position tried
      finds the same match. */
  lemma {:induction false} LastHitSame(at: nat -> Option<Match>, at': nat -> Option<Match>, lo: nat, hi: nat)
    requires Agree(at, at', lo, hi)
    ensures LastHit(at, lo, hi) == LastHit(at', lo, hi)
    decreases hi - lo
  {
    if lo < hi {
      assert at(hi - 1) == at'(hi - 1);
      LastHitSame(at, at', lo, hi - 1);
    }
  }

  lemma OptionsAtShift(s: string, d: nat, b: string, r: nat, r': nat)
    requires TailOf(s, d, b) && r' == d + r
    ensures OptionsAt(s, r') == ShiftMatch(OptionsAt(b, r), d)
  {
    if r < |b| {
      assert s[d + r] == b[r];
      if b[r] == ']' {
        var w := SkipSpace(b, r + 1);
        var w' := SkipSpace(s, r' + 1);
        assert w' == d + w by {
          SkipSpaceShift(s, d, b, r + 1, r' + 1);
        }
        assert LazyGroup(s, w') == ShiftMatch(LazyGroup(b, w), d) by {
          LazyGroupShift(s, d, b, w, w');
        }
      }
    }
  }

  lemma OptionsShifted(s: string, d: nat, b: string, lo: nat, hi: nat)
    requires TailOf(s, d, b)
    ensures Shifted(OptionsIn(s), OptionsIn(b), d, lo, hi)
  {
    forall i: nat | lo <= i < hi {
      OptionInShift(s, d, b, i);
    }
  }

  lemma OptionInShift(s: string, d: nat, b: string, i: nat)
    requires TailOf(s, d, b)
    ensures OptionsIn(s)(d + i) == ShiftMatch(OptionsIn(b)(i), d)
  {
    OptionsAtShift(s, d, b, i, d + i);
  }

  lemma OptionsCloseShift(s: string, d: nat, b: string, lo: nat, hi: nat, lo': nat, hi': nat)
    requires TailOf(s, d, b) && lo' == d + lo && hi' == d + hi
    ensures OptionsClose(s, lo', hi') == ShiftMatch(OptionsClose(b, lo, hi), d)
  {
    OptionsShifted(s, d, b, lo, hi);
    LastHitMoved(OptionsIn(s), OptionsIn(b), d, lo, hi, lo', hi');
  }

  lemma OptionsAfterShift(s: string, d: nat, b: string, w: nat, w': nat)
    requires TailOf(s, d, b) && w' == d + w
    ensures OptionsAfter(s, w') == ShiftMatch(OptionsAfter(b, w), d)
  {
    if w < |b| {
      assert s[d + w] == b[w];
      if b[w] == '[' {
        assert OptionsAfter(s, w') == ShiftMatch(OptionsAfter(b, w), d) by {
          BracketShift(s, d, b, w, w');
        }
      }
    }
  }

  /** OptionsAfter at a '[' of b. */
  lemma BracketShift(s: string, d: nat, b: string, w: nat, w': nat)
    requires TailOf(s, d, b) && w' == d + w && w < |b| && b[w] == '[' && s[w'] == '['
    ensures OptionsAfter(s, w') == ShiftMatch(OptionsAfter(b, w), d)
  {
    var e := LineEnd(b, w + 1);
    var e' := LineEnd(s, w' + 1);
    assert e' == d + e by {
      LineEndShift(s, d, b, w + 1, w' + 1);
    }
    assert OptionsClose(s, w' + 1, e') == ShiftMatch(OptionsClose(b, w + 1, e), d) by {
      OptionsCloseShift(s, d, b, w + 1, e, w' + 1, e');
    }
  }

  lemma GraphicArgumentShift(s: string, d: nat, b: string, q: nat, q': nat)
    requires TailOf(s, d, b) && q <= |b| && q' == d + q
    ensures GraphicArgument(s, q') == ShiftMatch(GraphicArgument(b, q), d)
  {
    var w := SkipSpace(b, q);
    var w' := SkipSpace(s, q');
    assert w' == d + w by {
      SkipSpaceShift(s, d, b, q, q');
    }
    assert OptionsAfter(s, w') == ShiftMatch(OptionsAfter(b, w), d) by {
      OptionsAfterShift(s, d, b, w, w');
    }
    assert LazyGroup(s, q') == ShiftMatch(LazyGroup(b, q), d) by {
      LazyGroupShift(s, d, b, q, q');
    }
  }

  lemma GraphicDirectiveAtShift(s: string, d: nat, b: string, k: nat, k': nat)
    requires TailOf(s, d, b) && k' == d + k
    ensures GraphicDirectiveAt(s, k') == ShiftMatch(GraphicDirectiveAt(b, k), d)
  {
    assert WordAt(s, k' + 1, "includegraphics") == WordAt(b, k + 1, "includegraphics") by {
      WordAtShift(s, d, b, k + 1, k' + 1, "includegraphics");
    }
    if k < |b| {
      assert s[d + k] == b[k];
      if b[k] == '\\' && WordAt(b, k + 1, "includegraphics") {
        assert GraphicArgument(s, k' + 16) == ShiftMatch(GraphicArgument(b, k + 16), d) by {
          GraphicArgumentShift(s, d, b, k + 16, k' + 16);
        }
      }
    }
  }

  lemma DirectiveAtShift(p: Pattern, s: string, d: nat, b: string, k: nat, k': nat)
    requires p != UnderscoreLatex && TailOf(s, d, b) && k' == d + k
    ensures DirectiveAt(p, s, k') == ShiftMatch(DirectiveAt(p, b, k), d)
  {
    if p == MemLatex {
      assert LatexDirectiveAt(s, k') == ShiftMatch(LatexDirectiveAt(b, k), d) by {
        LatexDirectiveAtShift(s, d, b, k, k');
      }
    } else {
      assert GraphicDirectiveAt(s, k') == ShiftMatch(GraphicDirectiveAt(b, k), d) by {
        GraphicDirectiveAtShift(s, d, b, k, k');
      }
    }
  }

  /** The directive tried at each position of b is the one tried at the
      same position of s, moved by d. */
  lemma DirectivesShift(p: Pattern, s: string, d: nat, b: string, j: nat, k: nat)
    requires p != UnderscoreLatex && TailOf(s, d, b)
    ensures Shifted(DirectivesIn(p, s), DirectivesIn(p, b), d, j, k)
  {
    forall i: nat | j <= i < k {
      DirectiveInShift(p, s, d, b, i);
    }
  }

  lemma DirectiveInShift(p: Pattern, s: string, d: nat, b: string, i: nat)
    requires p != UnderscoreLatex && TailOf(s, d, b)
    ensures DirectivesIn(p, s)(d + i) == ShiftMatch(DirectivesIn(p, b)(i), d)
  {
    DirectiveAtShift(p, s, d, b, i, d + i);
  }

  lemma PrefixedMatchShift(p: Pattern, s: string, d: nat, b: string, j: nat, k: nat, j': nat, k': nat)
    requires p != UnderscoreLatex && TailOf(s, d, b) && j <= k <= |b| && j' == d + j && k' == d + k
    ensures PrefixedMatch(p, s, j', k') == ShiftMatch(PrefixedMatch(p, b, j, k), d)
  {
    DirectivesShift(p, s, d, b, j, k + 1);
    LastHitMoved(DirectivesIn(p, s), DirectivesIn(p, b), d, j, k + 1, j', k' + 1);
  }

  lemma LeadingMatchShift(s: string, d: nat, b: string, j: nat, j': nat)
    requires TailOf(s, d, b) && j <= |b| && j' == d + j
    ensures LeadingMatch(s, j') == ShiftMatch(LeadingMatch(b, j), d)
  {
    var w := SkipSpace(b, j);
    var w' := SkipSpace(s, j');
    assert w' == d + w by {
      SkipSpaceShift(s, d, b, j, j');
    }
    assert DirectiveBrace(s, w') == ShiftIndex(DirectiveBrace(b, w), d) by {
      DirectiveBraceShift(s, d, b, w, w');
    }
    var br := DirectiveBrace(b, w);
    if br.Some? {
      var i := br.value + 1;
      var i' := DirectiveBrace(s, w').value + 1;
      var e := LineEnd(b, i);
      var e' := LineEnd(s, i');
      assert e' == d + e by {
        LineEndShift(s, d, b, i, i');
      }
      assert LastClose(s, i') == ShiftIndex(LastClose(b, i), d) by {
        LastCloseBeforeShift(s, d, b, i, e, i', e');
      }
      var c := LastClose(b, i);
      if c.Some? {
        var c' := LastClose(s, i').value;
        assert s[i'..c'] == b[i..c.value] by {
          SliceShift(s, d, b, i, c.value, i', c');
        }
      }
    }
  }

  lemma MatchAtShift(p: Pattern, s: string, d: nat, b: string, j: nat, j': nat)
    requires TailOf(s, d, b) && j <= |b| && j' == d + j
    ensures MatchAt(p, s, j') == ShiftMatch(MatchAt(p, b, j), d)
  {
    if p == UnderscoreLatex {
      assert LeadingMatch(s, j') == ShiftMatch(LeadingMatch(b, j), d) by {
        LeadingMatchShift(s, d, b, j, j');
      }
    } else {
      var k := CommentFreeEnd(b, j);
      var k' := CommentFreeEnd(s, j');
      assert k' == d + k by {
        CommentFreeEndShift(s, d, b, j, j');
      }
      assert PrefixedMatch(p, s, j', k') == ShiftMatch(PrefixedMatch(p, b, j, k), d) by {
        PrefixedMatchShift(p, s, d, b, j, k, j', k');
      }
    }
  }

  // ---------------------------------------------------------------------
  // Where a match stops at the end of its line.
  // ---------------------------------------------------------------------

  /** The line after the first |a| + 1 characters of s cannot continue an
      includegraphics directive: it is empty or starts with neither white
      space, `[` nor `{`. */
  predicate QuietAfter(s: string, n: nat) {
    n + 1 >= |s| || (!IsSpace(s[n + 1]) && s[n + 1] != '[' && s[n + 1] != '{')
  }

  /** When the groups of s are those of its first part a followed by those
      of the rest: always for MemLatex; for MemGraphic when the rest starts
      quietly; for UnderscoreLatex when a does not end in white space, so
      that no blank line start of a lets `^\s*` reach past it. */
  predicate Separates(p: Pattern, s: string, a: string) {
    match p
    case MemLatex => true
    case MemGraphic => QuietAfter(s, |a|)
    case UnderscoreLatex => |a| > 0 && !IsSpace(a[|a| - 1])
  }

  lemma {:induction false} LineEndCut(s: string, a: string, i: nat)
    requires LineOf(s, a) && i <= |a|
    ensures LineEnd(s, i) == LineEnd(a, i)
    decreases |a| - i
  {
    if i < |a| && a[i] != '\n' {
      LineEndCut(s, a, i + 1);
    }
  }

  lemma {:induction false} CommentFreeEndCut(s: string, a: string, i: nat)
    requires LineOf(s, a) && i <= |a|
    ensures CommentFreeEnd(s, i) == CommentFreeEnd(a, i)
    decreases |a| - i
  {
    if i < |a| && a[i] !in "%\r\n" {
      CommentFreeEndCut(s, a, i + 1);
    }
  }

  /** `\s*` stops where it stops in a, or, having run to the end of a,
      crosses the newline and goes on from there. */
  lemma {:induction false} SkipSpaceCut(s: string, a: string, i: nat)
    requires LineOf(s, a) && i <= |a|
    ensures SkipSpace(a, i) < |a| ==> SkipSpace(s, i) == SkipSpace(a, i)
    ensures SkipSpace(a, i) == |a| ==> SkipSpace(s, i) == SkipSpace(s, |a| + 1)
    decreases |a| - i
  {
    if i < |a| && IsSpace(a[i]) {
      SkipSpaceCut(s, a, i + 1);
    }
  }

  lemma {:induction false} FirstCloseCut(s: string, a: string, i: nat)
    requires LineOf(s, a) && i <= |a|
    ensures FirstClose(s, i) == FirstClose(a, i)
    decreases |a| - i
  {
    if i < |a| && a[i] != '\n' && a[i] != '}' {
      FirstCloseCut(s, a, i + 1);
    }
  }

  lemma {:induction false} LastCloseBeforeCut(s: string, a: string, i: nat, e: nat)
    requires LineOf(s, a) && i <= e <= |a|
    ensures LastCloseBefore(s, i, e) == LastCloseBefore(a, i, e)
    decreases e - i
  {
    if i < e && a[e - 1] != '}' {
      LastCloseBeforeCut(s, a, i, e - 1);
    }
  }

  lemma SliceCut(s: string, a: string, i: nat, j: nat)
    requires LineOf(s, a) && i <= j <= |a|
    ensures s[i..j] == a[i..j]
  {
    assert forall k :: 0 <= k < j - i ==> s[i..j][k] == s[i + k] == a[i + k];
  }

  /** A directive name holds no newline, so it never runs past a. */
  lemma WordAtCut(s: string, a: string, k: nat, w: string)
    requires LineOf(s, a) && k <= |a| && '\n' !in w
    ensures WordAt(s, k, w) == WordAt(a, k, w)
  {
    if k + |w| <= |a| {
      forall i | 0 <= i < |w|
        ensures LowerChar(s[k + i]) == w[i] <==> LowerChar(a[k + i]) == w[i]
      {
        assert s[k + i] == a[k + i];
      }
    } else if k + |w| <= |s| {
      assert LowerChar(s[|a|]) != w[|a| - k];
    }
  }

  lemma DirectiveBraceCut(s: string, a: string, k: nat)
    requires LineOf(s, a) && k <= |a|
    ensures DirectiveBrace(s, k) == DirectiveBrace(a, k)
  {
    if k < |a| {
      WordAtCut(s, a, k + 1, "input");
      WordAtCut(s, a, k + 1, "include");
      if k + 6 < |a| {
        assert s[k + 6] == a[k + 6];
      }
      if k + 8 < |a| {
        assert s[k + 8] == a[k + 8];
      }
    }
  }

  lemma LazyGroupCut(s: string, a: string, i: nat)
    requires LineOf(s, a) && i <= |a|
    ensures LazyGroup(s, i) == LazyGroup(a, i)
  {
    if i < |a| && a[i] == '{' {
      assert FirstClose(s, i + 1) == FirstClose(a, i + 1) by {
        FirstCloseCut(s, a, i + 1);
      }
      var c := FirstClose(a, i + 1);
      if c.Some? {
        assert s[i + 1..c.value] == a[i + 1..c.value] by {
          SliceCut(s, a, i + 1, c.value);
        }
      }
    }
  }

  lemma LatexDirectiveAtCut(s: string, a: string, k: nat)
    requires LineOf(s, a) && k <= |a|
    ensures LatexDirectiveAt(s, k) == LatexDirectiveAt(a, k)
  {
    assert DirectiveBrace(s, k) == DirectiveBrace(a, k) by {
      DirectiveBraceCut(s, a, k);
    }
    var br := DirectiveBrace(a, k);
    if br.Some? {
      assert LazyGroup(s, br.value) == LazyGroup(a, br.value) by {
        LazyGroupCut(s, a, br.value);
      }
    }
  }

  /** After `\s*` has crossed into a quiet line, neither `[` nor `{` is
      there. */
  lemma QuietCrossing(s: string, a: string, i: nat)
    requires LineOf(s, a) && i <= |a| && SkipSpace(a, i) == |a| && QuietAfter(s, |a|)
    ensures SkipSpace(s, i) == |a| + 1
    ensures OptionsAfter(s, |a| + 1).None? && LazyGroup(s, |a| + 1).None?
  {
    SkipSpaceCut(s, a, i);
  }

  lemma OptionsAtCut(s: string, a: string, r: nat)
    requires LineOf(s, a) && r < |a| && QuietAfter(s, |a|)
    ensures OptionsAt(s, r) == OptionsAt(a, r)
  {
    if a[r] == ']' {
      var w := SkipSpace(a, r + 1);
      if w < |a| {
        assert SkipSpace(s, r + 1) == w by {
          SkipSpaceCut(s, a, r + 1);
        }
        assert LazyGroup(s, w) == LazyGroup(a, w) by {
          LazyGroupCut(s, a, w);
        }
      } else {
        assert SkipSpace(s, r + 1) == |a| + 1 && LazyGroup(s, |a| + 1).None? by {
          QuietCrossing(s, a, r + 1);
        }
      }
    }
  }

  lemma OptionsAgree(s: string, a: string, lo: nat, hi: nat)
    requires LineOf(s, a) && hi <= |a| && QuietAfter(s, |a|)
    ensures Agree(OptionsIn(s), OptionsIn(a), lo, hi)
  {
    forall i: nat | lo <= i < hi {
      OptionInCut(s, a, i);
    }
  }

  lemma OptionInCut(s: string, a: string, i: nat)
    requires LineOf(s, a) && i < |a| && QuietAfter(s, |a|)
    ensures OptionsIn(s)(i) == OptionsIn(a)(i)
  {
    OptionsAtCut(s, a, i);
  }

  lemma OptionsCloseCut(s: string, a: string, lo: nat, hi: nat)
    requires LineOf(s, a) && hi <= |a| && QuietAfter(s, |a|)
    ensures OptionsClose(s, lo, hi) == OptionsClose(a, lo, hi)
  {
    OptionsAgree(s, a, lo, hi);
    LastHitSame(OptionsIn(s), OptionsIn(a), lo, hi);
  }

  lemma OptionsAfterCut(s: string, a: string, w: nat)
    requires LineOf(s, a) && w < |a| && QuietAfter(s, |a|)
    ensures OptionsAfter(s, w) == OptionsAfter(a, w)
  {
    assert s[w] == a[w];
    if a[w] == '[' {
      var e := LineEnd(a, w + 1);
      assert LineEnd(s, w + 1) == e by {
        LineEndCut(s, a, w + 1);
      }
      assert OptionsClose(s, w + 1, e) == OptionsClose(a, w + 1, e) by {
        OptionsCloseCut(s, a, w + 1, e);
      }
    }
  }

  lemma GraphicArgumentCut(s: string, a: string, q: nat)
    requires LineOf(s, a) && q <= |a| && QuietAfter(s, |a|)
    ensures GraphicArgument(s, q) == GraphicArgument(a, q)
  {
    assert LazyGroup(s, q) == LazyGroup(a, q) by {
      LazyGroupCut(s, a, q);
    }
    var w := SkipSpace(a, q);
    if w < |a| {
      assert SkipSpace(s, q) == w by {
        SkipSpaceCut(s, a, q);
      }
      assert OptionsAfter(s, w) == OptionsAfter(a, w) by {
        OptionsAfterCut(s, a, w);
      }
    } else {
      assert SkipSpace(s, q) == |a| + 1 && OptionsAfter(s, |a| + 1).None? by {
        QuietCrossing(s, a, q);
      }
    }
  }

  lemma GraphicDirectiveAtCut(s: string, a: string, k: nat)
    requires LineOf(s, a) && k <= |a| && QuietAfter(s, |a|)
    ensures GraphicDirectiveAt(s, k) == GraphicDirectiveAt(a, k)
  {
    if k < |a| {
      assert s[k] == a[k];
      assert WordAt(s, k + 1, "includegraphics") == WordAt(a, k + 1, "includegraphics") by {
        WordAtCut(s, a, k + 1, "includegraphics");
      }
      if a[k] == '\\' && WordAt(a, k + 1, "includegraphics") {
        assert GraphicArgument(s, k + 16) == GraphicArgument(a, k + 16) by {
          GraphicArgumentCut(s, a, k + 16);
        }
      }
    } else {
      assert s[k] == '\n';
    }
  }

  lemma DirectiveAtCut(p: Pattern, s: string, a: string, k: nat)
    requires p != UnderscoreLatex && LineOf(s, a) && Separates(p, s, a) && k <= |a|
    ensures DirectiveAt(p, s, k) == DirectiveAt(p, a, k)
  {
    if p == MemLatex {
      assert LatexDirectiveAt(s, k) == LatexDirectiveAt(a, k) by {
        LatexDirectiveAtCut(s, a, k);
      }
    } else {
      assert GraphicDirectiveAt(s, k) == GraphicDirectiveAt(a, k) by {
        GraphicDirectiveAtCut(s, a, k);
      }
    }
  }

  lemma DirectivesCut(p: Pattern, s: string, a: string, j: nat, k: nat)
    requires p != UnderscoreLatex && LineOf(s, a) && Separates(p, s, a) && k <= |a| + 1
    ensures Agree(DirectivesIn(p, s), DirectivesIn(p, a), j, k)
  {
    forall i: nat | j <= i < k {
      DirectiveInCut(p, s, a, i);
    }
  }

  lemma DirectiveInCut(p: Pattern, s: string, a: string, i: nat)
    requires p != UnderscoreLatex && LineOf(s, a) && Separates(p, s, a) && i <= |a|
    ensures DirectivesIn(p, s)(i) == DirectivesIn(p, a)(i)
  {
    DirectiveAtCut(p, s, a, i);
  }

  lemma PrefixedMatchCut(p: Pattern, s: string, a: string, j: nat, k: nat)
    requires p != UnderscoreLatex && LineOf(s, a) && Separates(p, s, a) && j <= k <= |a|
    ensures PrefixedMatch(p, s, j, k) == PrefixedMatch(p, a, j, k)
  {
    DirectivesCut(p, s, a, j, k + 1);
    LastHitSame(DirectivesIn(p, s), DirectivesIn(p, a), j, k + 1);
  }

  lemma LeadingMatchCut(s: string, a: string, j: nat)
    requires LineOf(s, a) && j < |a| && !IsSpace(a[|a| - 1])
    ensures LeadingMatch(s, j) == LeadingMatch(a, j)
  {
    var w := SkipSpace(a, j);
    if w == |a| {
      SkipSpaceSkips(a, j, |a| - 1);
    }
    assert SkipSpace(s, j) == w by {
      SkipSpaceCut(s, a, j);
    }
    assert DirectiveBrace(s, w) == DirectiveBrace(a, w) by {
      DirectiveBraceCut(s, a, w);
    }
    var br := DirectiveBrace(a, w);
    if br.Some? {
      var i := br.value + 1;
      var e := LineEnd(a, i);
      assert LineEnd(s, i) == e by {
        LineEndCut(s, a, i);
      }
      assert LastClose(s, i) == LastClose(a, i) by {
        LastCloseBeforeCut(s, a, i, e);
      }
      var c := LastClose(a, i);
      if c.Some? {
        assert s[i..c.value] == a[i..c.value] by {
          SliceCut(s, a, i, c.value);
        }
      }
    }
  }

  lemma MatchAtCut(p: Pattern, s: string, a: string, j: nat)
    requires LineOf(s, a) && Separates(p, s, a) && j <= |a|
    requires p == UnderscoreLatex ==> j < |a|
    ensures MatchAt(p, s, j) == MatchAt(p, a, j)
  {
    if p == UnderscoreLatex {
      assert LeadingMatch(s, j) == LeadingMatch(a, j) by {
        LeadingMatchCut(s, a, j);
      }
    } else {
      var k := CommentFreeEnd(a, j);
      assert CommentFreeEnd(s, j) == k by {
        CommentFreeEndCut(s, a, j);
      }
      assert PrefixedMatch(p, s, j, k) == PrefixedMatch(p, a, j, k) by {
        PrefixedMatchCut(p, s, a, j, k);
      }
    }
  }

  // ---------------------------------------------------------------------
  // The search over a whole text.
  // ---------------------------------------------------------------------

  /** The match the search takes at j: the match of p starting at j when j
      starts a line of s, and none otherwise. */
  function Hits(p: Pattern, s: string): nat -> Option<Match> {
    (j: nat) => if j <= |s| && LineStart(s, j) then MatchAt(p, s, j) else None
  }

  /** The search of FindAll over a text of length n whose matches are given
      by hit: a match taken resumes the search at its end. */
  function Scan(hit: nat -> Option<Match>, n: nat, pos: nat): seq<string>
    decreases n + 1 - pos
  {
    if pos > n then []
    else if hit(pos).Some? && pos < hit(pos).value.end then [hit(pos).value.group] + Scan(hit, n, hit(pos).value.end)
    else Scan(hit, n, pos + 1)
  }

  /** Every hit taken at lo..hi-1 ends by top. */
  predicate EndBy(hit: nat -> Option<Match>, lo: nat, hi: nat, top: nat) {
    forall j :: lo <= j < hi && hit(j).Some? ==> hit(j).value.end <= top
  }

  /** FindAll is the search over the hits of p in s. */
  lemma {:induction false} FindAllScan(p: Pattern, s: string, pos: nat)
    ensures FindAll(p, s, pos) == Scan(Hits(p, s), |s|, pos)
    decreases |s| + 1 - pos
  {
    if pos <= |s| {
      var m := MatchAt(p, s, pos);
      assert Hits(p, s)(pos) == if LineStart(s, pos) then m else None;
      if LineStart(s, pos) && m.Some? {
        FindAllScan(p, s, m.value.end);
      } else {
        FindAllScan(p, s, pos + 1);
      }
    }
  }

  /** A search whose hits up to m are those of a text of length m, ending by
      m + 1, finds what the search over that text finds and then goes on
      from m + 1. */
  lemma {:induction false} ScanCut(hit: nat -> Option<Match>, hit': nat -> Option<Match>, n: nat, m: nat, pos: nat)
    requires m < n && pos <= m + 1
    requires Agree(hit, hit', pos, m + 1) && EndBy(hit', pos, m + 1, m + 1)
    ensures Scan(hit, n, pos) == Scan(hit', m, pos) + Scan(hit, n, m + 1)
    decreases m + 1 - pos
  {
    if pos <= m {
      assert hit(pos) == hit'(pos);
      var h := hit'(pos);
      if h.Some? && pos < h.value.end {
        var rest := Scan(hit, n, m + 1);
        ScanCut(hit, hit', n, m, h.value.end);
        assert [h.value.group] + (Scan(hit', m, h.value.end) + rest) == [h.value.group] + Scan(hit', m, h.value.end) + rest;
      } else {
        ScanCut(hit, hit', n, m, pos + 1);
      }
    }
  }

  /** A search over a text that holds, from d on, a text of length n' whose
      hits are those of hit' moved by d finds there what the search over
      that text finds. */
  lemma {:induction false} ScanShift(hit: nat -> Option<Match>, hit': nat -> Option<Match>, d: nat, n: nat, n': nat, j: nat, pos: nat)
    requires n == d + n' && pos == d + j && j <= n' + 1
    requires Shifted(hit, hit', d, j, n' + 1) && EndBy(hit', j, n' + 1, n' + 1)
    ensures Scan(hit, n, pos) == Scan(hit', n', j)
    decreases n' + 1 - j
  {
    if j <= n' {
      assert hit(d + j) == ShiftMatch(hit'(j), d);
      var h := hit'(j);
      if h.Some? && j < h.value.end {
        ScanShift(hit, hit', d, n, n', h.value.end, d + h.value.end);
      } else {
        ScanShift(hit, hit', d, n, n', j + 1, pos + 1);
      }
    }
  }

  /** Up to the line break after a, the hits in s are those in a, and they
      end within a. */
  /** Whether a hit is tried at j, and what it gives, seen without the
      closure. */
  lemma HitsAt(p: Pattern, s: string, j: nat)
    ensures Hits(p, s)(j) == if j <= |s| && LineStart(s, j) then MatchAt(p, s, j) else None
    ensures Hits(p, s)(j).Some? ==> Hits(p, s)(j).value.end <= |s|
  {
  }

  lemma HitCut(p: Pattern, s: string, a: string, j: nat)
    requires LineOf(s, a) && Separates(p, s, a) && j <= |a|
    ensures Hits(p, s)(j) == Hits(p, a)(j)
  {
    HitsAt(p, s, j);
    HitsAt(p, a, j);
    if j > 0 {
      assert s[j - 1] == a[j - 1];
    }
    assert LineStart(s, j) == LineStart(a, j);
    if p != UnderscoreLatex || j < |a| {
      MatchAtCut(p, s, a, j);
    }
  }

  lemma HitsCut(p: Pattern, s: string, a: string)
    requires LineOf(s, a) && Separates(p, s, a)
    ensures Agree(Hits(p, s), Hits(p, a), 0, |a| + 1)
    ensures EndBy(Hits(p, a), 0, |a| + 1, |a| + 1)
  {
    forall j | 0 <= j < |a| + 1
      ensures Hits(p, s)(j) == Hits(p, a)(j)
      ensures Hits(p, a)(j).Some? ==> Hits(p, a)(j).value.end <= |a| + 1
    {
      HitCut(p, s, a, j);
      HitsAt(p, a, j);
    }
  }

  lemma HitShift(p: Pattern, s: string, d: nat, b: string, j: nat)
    requires TailOf(s, d, b) && s[d - 1] == '\n' && j <= |b|
    ensures Hits(p, s)(d + j) == ShiftMatch(Hits(p, b)(j), d)
  {
    HitsAt(p, s, d + j);
    HitsAt(p, b, j);
    if j > 0 {
      assert s[d + (j - 1)] == b[j - 1];
    }
    assert LineStart(s, d + j) == LineStart(b, j);
    MatchAtShift(p, s, d, b, j, d + j);
  }

  /** After the line break, the hits in s are those in b moved by d, and
      those in b end within b. */
  lemma HitsShift(p: Pattern, s: string, d: nat, b: string)
    requires TailOf(s, d, b) && s[d - 1] == '\n'
    ensures Shifted(Hits(p, s), Hits(p, b), d, 0, |b| + 1)
    ensures EndBy(Hits(p, b), 0, |b| + 1, |b| + 1)
  {
    forall j | 0 <= j < |b| + 1
      ensures Hits(p, s)(d + j) == ShiftMatch(Hits(p, b)(j), d)
      ensures Hits(p, b)(j).Some? ==> Hits(p, b)(j).value.end <= |b| + 1
    {
      HitShift(p, s, d, b, j);
      HitsAt(p, b, j);
    }
  }

  /** The groups of a text with a line break after a are the groups of a
      followed by the groups of the rest, in document order: always for
      MemLatex; for MemGraphic when the rest does not start with white
      space, `[` or `{`, since its `\s*` and option list may run across
      the break; for UnderscoreLatex when a does not end in white space, so
      that no match of `^\s*` starts inside a and runs into b (such a match
      finds b's first group, but this lemma does not cover that case). */
  lemma GroupsSplit(p: Pattern, a: string, b: string)
    requires p == MemGraphic ==> b == [] || (!IsSpace(b[0]) && b[0] != '[' && b[0] != '{')
    requires p == UnderscoreLatex ==> |a| > 0 && !IsSpace(a[|a| - 1])
    ensures Groups(p, a + "\n" + b) == Groups(p, a) + Groups(p, b)
  {
    var s := a + "\n" + b;
    var d := |a| + 1;
    assert LineOf(s, a);
    assert TailOf(s, d, b);
    assert Separates(p, s, a) by {
      assert |b| > 0 ==> s[d] == b[0];
    }
    FindAllCut(p, s, a);
    FindAllShift(p, s, d, b);
  }

  /** The search over s finds the groups of the text a before a line
      break, then goes on after that line break. */
  lemma FindAllCut(p: Pattern, s: string, a: string)
    requires LineOf(s, a) && Separates(p, s, a)
    ensures FindAll(p, s, 0) == Groups(p, a) + FindAll(p, s, |a| + 1)
  {
    FindAllScan(p, s, 0);
    FindAllScan(p, a, 0);
    FindAllScan(p, s, |a| + 1);
    HitsCut(p, s, a);
    ScanCut(Hits(p, s), Hits(p, a), |s|, |a|, 0);
  }

  /** After a line break at d - 1, the search over s finds the groups of
      the rest b. */
  lemma FindAllShift(p: Pattern, s: string, d: nat, b: string)
    requires TailOf(s, d, b) && s[d - 1] == '\n'
    ensures FindAll(p, s, d) == Groups(p, b)
  {
    FindAllScan(p, s, d);
    FindAllScan(p, b, 0);
    HitsShift(p, s, d, b);
    ScanShift(Hits(p, s), Hits(p, b), d, |s|, |b|, 0, d);
  }
}
