/**
 * `PDFLatexBuilder` of mem/tasks/pdflatex.py: the candidate file names a
 * LaTeX text refers to, the recursive search for the ones that exist, and
 * the target-name rules. The file system is a map from the paths that
 * exist to their contents.
 */
module PdfLatex {
  import opened Wrappers
  import opened Paths
  import opened TexScan
  import opened TexLines
  import opened DepSearch

  /** `_GRAPHIC_EXTENSIONS`, in the order they are tried. */
  const GraphicExtensions: seq<string> := [".pdf", ".eps", ".png", ".jpg", ".tif", ".bmp"]

  /** The line pdflatex prints when a second run is needed. */
  const RerunMarker: string := "Rerun to get cross-references right"

  /** The names `\input{m}` or `\include{m}` may refer to. */
  function LatexCandidates(m: string): seq<string> {
    if SplitExt(m).1 == "" then [m + ".tex", m + ".ltx", m + ".latex", m] else [m]
  }

  /** The names `\includegraphics{m}` may refer to. */
  function GraphicCandidates(m: string): seq<string> {
    if SplitExt(m).1 == "" then seq(|GraphicExtensions|, i requires 0 <= i < |GraphicExtensions| => m + GraphicExtensions[i])
    else [m]
  }

  /** The candidates of a list of matches, match by match. */
  function Expand(ms: seq<string>, candidates: string -> seq<string>): seq<string> {
    if ms == [] then [] else Expand(ms[..|ms| - 1], candidates) + candidates(ms[|ms| - 1])
  }

  /** What `_find_potential_latex_deps(s)` returns. */
  function LatexDeps(s: string): seq<string> {
    Expand(Groups(MemLatex, s), LatexCandidates)
  }

  /** What `_find_potential_graphic_deps(s)` returns. */
  function GraphicDeps(s: string): seq<string> {
    Expand(Groups(MemGraphic, s), GraphicCandidates)
  }

  /** Every candidate `_find_dependencies(s)` looks at. */
  function Candidates(s: string): seq<string> {
    GraphicDeps(s) + LatexDeps(s)
  }

  /** A name is always a candidate for itself, and every candidate starts
      with the name; without an extension the three LaTeX extensions come
      first, with one the name stands alone. */
  lemma LatexCandidatesShape(m: string)
    ensures m in LatexCandidates(m) && LatexCandidates(m)[|LatexCandidates(m)| - 1] == m
    ensures forall c :: c in LatexCandidates(m) ==> m <= c
    ensures |LatexCandidates(m)| == (if SplitExt(m).1 == "" then 4 else 1)
  {
  }

  /** Without an extension a graphic name is tried with each of the six
      extensions, in order; with one, only as written. */
  lemma GraphicCandidatesShape(m: string)
    ensures SplitExt(m).1 == "" ==> (|GraphicCandidates(m)| == 6
      && forall i :: 0 <= i < 6 ==> GraphicCandidates(m)[i] == m + GraphicExtensions[i])
    ensures SplitExt(m).1 != "" ==> GraphicCandidates(m) == [m]
    ensures forall c :: c in GraphicCandidates(m) ==> m <= c
  {
  }

  /** Expansion keeps document order: the candidates of two runs of
      matches are the candidates of the first run, then of the second. */
  lemma {:induction false} ExpandAppend(a: seq<string>, b: seq<string>, candidates: string -> seq<string>)
    ensures Expand(a + b, candidates) == Expand(a, candidates) + Expand(b, candidates)
    decreases |b|
  {
    if b == [] {
      assert a + b == a;
    } else {
      var b', last := b[..|b| - 1], b[|b| - 1];
      assert (a + b)[..|a + b| - 1] == a + b';
      assert (a + b)[|a + b| - 1] == last;
      calc {
        Expand(a + b, candidates);
        Expand(a + b', candidates) + candidates(last);
        { ExpandAppend(a, b', candidates); }
        (Expand(a, candidates) + Expand(b', candidates)) + candidates(last);
        Expand(a, candidates) + (Expand(b', candidates) + candidates(last));
        Expand(a, candidates) + Expand(b, candidates);
      }
    }
  }

  /** One more match adds its candidates at the end. */
  lemma ExpandNext(ms: seq<string>, i: nat, candidates: string -> seq<string>)
    requires i < |ms|
    ensures Expand(ms[..i + 1], candidates) == Expand(ms[..i], candidates) + candidates(ms[i])
  {
    assert ms[..i + 1][..i] == ms[..i];
  }

  /** A single match yields exactly its candidates. */
  lemma ExpandOne(m: string, candidates: string -> seq<string>)
    ensures Expand([m], candidates) == candidates(m)
  {
    assert [m][..0] == [];
  }

  /** The text is searched line by line: the candidates of a text are
      those of its first line, then those of the rest, since no input or
      include directive runs over a line break. */
  lemma LatexDepsLines(a: string, b: string)
    ensures LatexDeps(a + "\n" + b) == LatexDeps(a) + LatexDeps(b)
  {
    GroupsSplit(MemLatex, a, b);
    ExpandAppend(Groups(MemLatex, a), Groups(MemLatex, b), LatexCandidates);
  }

  /** The same for includegraphics, whose `\s*` may run over a line break:
      it holds when the rest does not start with white space, `[` or `{`. */
  lemma GraphicDepsLines(a: string, b: string)
    requires b == [] || (!IsSpace(b[0]) && b[0] != '[' && b[0] != '{')
    ensures GraphicDeps(a + "\n" + b) == GraphicDeps(a) + GraphicDeps(b)
  {
    GroupsSplit(MemGraphic, a, b);
    ExpandAppend(Groups(MemGraphic, a), Groups(MemGraphic, b), GraphicCandidates);
  }

  /** A line holding one input or include directive, as in InputAt,
      yields exactly the candidates of its argument. */
  lemma InputLineDeps(s: string, k: nat, word: string, c: nat)
    requires word == "input" || word == "include"
    requires k + |word| + 1 < c < |s|
    requires NoneOf(s, "\n") && NoneOf(s[..k], "%\r") && NoneOf(s[k + 1..], "\\")
    requires s[k] == '\\' && WordAt(s, k + 1, word) && s[k + 1 + |word|] == '{'
    requires s[c] == '}' && NoneOf(s[k + |word| + 2..c], "}")
    ensures LatexDeps(s) == LatexCandidates(s[k + |word| + 2..c])
  {
    InputAt(s, k, word, c);
    ExpandOne(s[k + |word| + 2..c], LatexCandidates);
  }

  /** A commented-out directive contributes no candidates. */
  lemma CommentedLineDeps(s: string, pct: nat)
    requires NoneOf(s, "\n") && pct < |s| && s[pct] == '%'
    requires forall k :: 0 <= k < pct ==> DirectiveAt(MemLatex, s, k).None? && DirectiveAt(MemGraphic, s, k).None?
    ensures Candidates(s) == []
  {
    CommentHides(MemLatex, s, pct);
    CommentHides(MemGraphic, s, pct);
  }

  /** `_find_potential_latex_deps(s)`. */
  method FindPotentialLatexDeps(s: string) returns (rv: seq<string>)
    ensures rv == LatexDeps(s)
  {
    rv := ExpandLatexMatches(Groups(MemLatex, s));
  }

  /** The loop of `_find_potential_latex_deps` over the matches. */
  method ExpandLatexMatches(ms: seq<string>) returns (rv: seq<string>)
    ensures rv == Expand(ms, LatexCandidates)
  {
    rv := [];
    for i := 0 to |ms|
      invariant rv == Expand(ms[..i], LatexCandidates)
    {
      var m := ms[i];
      if SplitExt(m).1 == "" {
        rv := rv + [m + ".tex", m + ".ltx", m + ".latex", m];
      } else {
        rv := rv + [m];
      }
      ExpandNext(ms, i, LatexCandidates);
    }
    assert ms[..|ms|] == ms;
  }

  /** `_find_potential_graphic_deps(s)`. */
  method FindPotentialGraphicDeps(s: string) returns (rv: seq<string>)
    ensures rv == GraphicDeps(s)
  {
    rv := ExpandGraphicMatches(Groups(MemGraphic, s));
  }

  /** The loop of `_find_potential_graphic_deps` over the matches. */
  method ExpandGraphicMatches(ms: seq<string>) returns (rv: seq<string>)
    ensures rv == Expand(ms, GraphicCandidates)
  {
    rv := [];
    for i := 0 to |ms|
      invariant rv == Expand(ms[..i], GraphicCandidates)
    {
      var m := ms[i];
      if SplitExt(m).1 == "" {
        var exts := [];
        for j := 0 to |GraphicExtensions|
          invariant exts == seq(j, e requires 0 <= e < j => m + GraphicExtensions[e])
        {
          exts := exts + [m + GraphicExtensions[j]];
        }
        rv := rv + exts;
      } else {
        rv := rv + [m];
      }
      ExpandNext(ms, i, GraphicCandidates);
    }
    assert ms[..|ms|] == ms;
  }

  /** `_need_rerun(output)`: true, or None. */
  function NeedRerun(output: string): bool {
    Contains(output, RerunMarker)
  }

  /** `_need_rerun` holds exactly when the marker occurs in the output. */
  lemma NeedRerunIff(output: string)
    ensures NeedRerun(output) <==> exists i :: 0 <= i <= |output| && RerunMarker <= output[i..]
  {
    ContainsIff(output, RerunMarker);
  }

  /** `_validate_target(target)`: the ValueError, or the target. */
  function ValidateTarget(target: string): (r: Result<string, string>)
    ensures r.Success? <==> Lower(SplitExt(target).1) == ".pdf"
    ensures r.Success? ==> r.value == target
    ensures r.Failure? ==> r.error == target + " is not a valid target for this builder"
  {
    if Lower(SplitExt(target).1) != ".pdf" then Failure(target + " is not a valid target for this builder")
    else Success(target)
  }

  /** `_check_target(source, target)`. */
  function CheckTarget(source: string, target: Option<string>): Result<string, string> {
    ValidateTarget(if target.None? then SplitExt(source).0 + ".pdf" else target.value)
  }

  /** The derived target is the source's stem with `.pdf` and is accepted,
      provided the stem's last component is not empty or all dots (for a
      source such as `dir/` the derived name `dir/.pdf` has no extension
      and is refused). */
  lemma CheckTargetDefault(source: string)
    requires HasNonDot(SplitExt(source).0, RFind(SplitExt(source).0, '/') + 1, |SplitExt(source).0|)
    ensures CheckTarget(source, None) == Success(SplitExt(source).0 + ".pdf")
  {
    SplitExtAppend(SplitExt(source).0, ".pdf");
    assert Lower(".pdf") == ".pdf";
  }

  /** A given target is kept exactly when its extension is `.pdf` in any
      case; nothing about the source matters then. */
  lemma CheckTargetGiven(source: string, target: string)
    ensures CheckTarget(source, Some(target)).Success? <==> Lower(SplitExt(target).1) == ".pdf"
    ensures CheckTarget(source, Some(target)).Success? ==> CheckTarget(source, Some(target)).value == target
  {
  }

  /** The state of `PDFLatexBuilder`: `_deps`, the existing files it has
      found so far, in the order found. */
  class Builder {
    /** The files that exist, with their contents. */
    const files: map<string, string>
    var deps: seq<string>
    /** The files whose contents have been searched. */
    ghost var scanned: set<string>

    constructor (files: map<string, string>)
      ensures this.files == files && deps == [] && scanned == {}
    {
      this.files := files;
      deps := [];
      scanned := {};
    }

    ghost function Unvisited(): set<string>
      reads this
    {
      files.Keys - set f | f in deps
    }

    /** No file is listed twice, and every searched file is listed. */
    ghost predicate Valid()
      reads this
    {
      Distinct(deps) && forall f :: f in scanned ==> f in deps
    }

    /** `_deps` has grown from before as `Extends` says. */
    ghost predicate Grew(before: seq<string>)
      reads this
    {
      Extends(before, deps, files)
    }

    /** The append loops of `_find_dependencies`: each name in turn is
        added when it exists and is not there yet. */
    method AddExisting(names: seq<string>) returns (added: seq<string>)
      requires Distinct(deps)
      modifies this`deps
      ensures Grew(old(deps)) && deps == old(deps) + added
      ensures Listed(names, files, deps)
      ensures forall f :: f in added ==> f in names
    {
      added := [];
      for i := 0 to |names|
        invariant Grew(old(deps)) && deps == old(deps) + added
        invariant forall f :: f in names[..i] && f in files ==> f in deps
        invariant forall f :: f in added ==> f in names
      {
        var f := names[i];
        if f in files && f !in deps {
          deps := deps + [f];
          added := added + [f];
        }
      }
    }

    /** `_find_dependencies(s)`: every existing candidate of s is in
        `_deps`, and so, transitively, is every existing candidate of each
        LaTeX file it pulls in; only LaTeX candidates are searched in turn,
        never graphics. */
    method FindDependencies(s: string) returns (ghost searched: set<string>)
      requires Valid()
      modifies this
      decreases Unvisited(), 1
      ensures Valid() && Grew(old(deps)) && Covered(Candidates, s, files, deps)
      ensures scanned == old(scanned) + searched
      ensures Explored(Candidates, LatexDeps, s, files, old(deps), deps, searched)
      ensures Accounted(GraphicDeps, s, files, old(deps), deps, searched)
    {
      var graphics := FindPotentialGraphicDeps(s);
      var _ := AddExisting(graphics);
      var latex := FindPotentialLatexDeps(s);
      searched := {};
      for i := 0 to |latex|
        invariant Valid() && Grew(old(deps))
        invariant Listed(graphics, files, deps) && Listed(latex[..i], files, deps)
        invariant scanned == old(scanned) + searched
        invariant Explored(Candidates, LatexDeps, s, files, old(deps), deps, searched)
        invariant Accounted(GraphicDeps, s, files, old(deps), deps, searched)
      {
        var f := latex[i];
        ghost var mid := deps;
        if f in files && f !in deps {
          ghost var inner := Visit(f, s, old(deps), searched);
          AccountedStep(GraphicDeps, s, files, old(deps), mid, deps, searched, f, inner);
          searched := searched + {f} + inner;
        }
        ExtendsTrans(old(deps), mid, deps, files);
        ListedGrows(graphics, files, mid, deps);
        ListedNext(latex, i, files, mid, deps);
      }
      assert latex[..|latex|] == latex;
    }

    /** The body of the search loop of `_find_dependencies(s)` for an
        existing LaTeX candidate f of s not yet listed: append it and
        search its contents; inner is what that search went through besides
        f, and all of it, like what was searched before, is found from s. */
    method Visit(f: string, ghost s: string, ghost start: seq<string>, ghost found: set<string>)
      returns (ghost inner: set<string>)
      requires Valid() && f in files && f !in deps && f in LatexDeps(s)
      requires forall x :: x in start ==> x in deps
      requires Explored(Candidates, LatexDeps, s, files, start, deps, found)
      modifies this
      decreases Unvisited(), 0
      ensures Valid() && Grew(old(deps)) && f in deps
      ensures scanned == old(scanned) + {f} + inner
      ensures Explored(Candidates, LatexDeps, s, files, start, deps, found + {f} + inner)
      ensures Accounted(GraphicDeps, files[f], files, old(deps) + [f], deps, inner)
    {
      ghost var before := deps;
      deps := deps + [f];
      scanned := scanned + {f};
      assert f !in Unvisited();
      inner := FindDependencies(files[f]);
      ExploredStep(Candidates, LatexDeps, s, files, start, before, deps, found, f, inner);
    }
  }
}
