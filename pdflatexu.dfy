/**
 * `PDFLatexBuilder` of mem_/tasks/pdflatex.py: the same builder with a
 * different directive pattern (only leading white space before the
 * directive, the argument running to the last `}` of the line), no
 * graphics, and every file it lists searched in turn. Its `_need_rerun`,
 * `_validate_target` and `_check_target` are those of mem/tasks/pdflatex.py,
 * modelled in PdfLatex.
 */
module PdfLatexUnderscore {
  import opened Wrappers
  import opened Paths
  import opened TexScan
  import opened TexLines
  import opened DepSearch
  import PdfLatex

  /** What `_find_potential_deps(s)` returns. */
  function Deps(s: string): seq<string> {
    PdfLatex.Expand(Groups(UnderscoreLatex, s), PdfLatex.LatexCandidates)
  }

  /** `_find_potential_deps(s)`. */
  method FindPotentialDeps(s: string) returns (rv: seq<string>)
    ensures rv == Deps(s)
  {
    rv := PdfLatex.ExpandLatexMatches(Groups(UnderscoreLatex, s));
  }

  /** A line that starts, after white space, with an input or include
      directive yields the candidates of everything from its brace to the
      last `}` of the line, whatever comes before that `}`. */
  lemma LeadingLineDeps(s: string, k: nat, word: string, c: nat)
    requires word == "input" || word == "include"
    requires NoneOf(s, "\n") && k + |word| + 1 < c < |s|
    requires forall i :: 0 <= i < k ==> IsSpace(s[i])
    requires s[k] == '\\' && WordAt(s, k + 1, word) && s[k + 1 + |word|] == '{'
    requires s[c] == '}' && NoneOf(s[c + 1..], "}")
    ensures Deps(s) == PdfLatex.LatexCandidates(s[k + |word| + 2..c])
  {
    LeadingAt(s, k, word, c);
    PdfLatex.ExpandOne(s[k + |word| + 2..c], PdfLatex.LatexCandidates);
  }

  /** A directive after other text on its line, a comment sign included,
      is not found. */
  lemma LeadingTextDeps(s: string)
    requires NoneOf(s, "\n") && |s| > 0 && !IsSpace(s[0]) && s[0] != '\\'
    ensures Deps(s) == []
  {
    LeadingTextHides(s);
  }

  /** The text is searched line by line when the first line does not end
      in white space: the leading `\s*` of the pattern can only run over a
      line break from a line that is white space up to its end. */
  lemma DepsLines(a: string, b: string)
    requires |a| > 0 && !IsSpace(a[|a| - 1])
    ensures Deps(a + "\n" + b) == Deps(a) + Deps(b)
  {
    GroupsSplit(UnderscoreLatex, a, b);
    PdfLatex.ExpandAppend(Groups(UnderscoreLatex, a), Groups(UnderscoreLatex, b), PdfLatex.LatexCandidates);
  }

  /** The state of `PDFLatexBuilder`: `_deps`, the existing files it has
      found so far, in the order found. */
  class Builder {
    /** The files that exist, with their contents. */
    const files: map<string, string>
    var deps: seq<string>
    /** The files whose contents have been searched. */
    ghost var scanned: set<string>

    constructor (files: map<string, string>)
      ensures this.files == files && deps == [] && scanned == {}
    {
      this.files := files;
      deps := [];
      scanned := {};
    }

    ghost function Unvisited(): set<string>
      reads this
    {
      files.Keys - set f | f in deps
    }

    /** No file is listed twice, and every searched file is listed. */
    ghost predicate Valid()
      reads this
    {
      Distinct(deps) && forall f :: f in scanned ==> f in deps
    }

    /** `_find_dependencies(s)`: every existing candidate of s is in
        `_deps`, and so, transitively, is every existing candidate of each
        file it lists, each of which was found from s. */
    method FindDependencies(s: string) returns (ghost searched: set<string>)
      requires Valid()
      modifies this
      decreases Unvisited(), 1
      ensures Valid() && Extends(old(deps), deps, files) && Covered(Deps, s, files, deps)
      ensures scanned == old(scanned) + searched
      ensures Explored(Deps, Deps, s, files, old(deps), deps, searched)
      ensures forall f :: f in deps && f !in old(deps) ==> f in searched
      ensures old(deps) == [] ==> Closed(Deps, files, deps)
    {
      var names := FindPotentialDeps(s);
      searched := {};
      for i := 0 to |names|
        invariant Valid() && Extends(old(deps), deps, files)
        invariant Listed(names[..i], files, deps)
        invariant scanned == old(scanned) + searched
        invariant Explored(Deps, Deps, s, files, old(deps), deps, searched)
        invariant forall f :: f in deps && f !in old(deps) ==> f in searched
      {
        var f := names[i];
        ghost var mid := deps;
        if f in files && f !in deps {
          ghost var inner := Visit(f, s, old(deps), searched);
          searched := searched + {f} + inner;
        }
        ExtendsTrans(old(deps), mid, deps, files);
        ListedNext(names, i, files, mid, deps);
      }
      assert names[..|names|] == names;
      if old(deps) == [] {
        ExploredCloses(Deps, Deps, s, files, deps, searched);
      }
    }

    /** The loop body of `_find_dependencies(s)` for an existing candidate
        f of s not yet listed: append it and search its contents; inner is
        what that search went through besides f. */
    method Visit(f: string, ghost s: string, ghost start: seq<string>, ghost found: set<string>)
      returns (ghost inner: set<string>)
      requires Valid() && f in files && f !in deps && f in Deps(s)
      requires forall x :: x in start ==> x in deps
      requires Explored(Deps, Deps, s, files, start, deps, found)
      modifies this
      decreases Unvisited(), 0
      ensures Valid() && Extends(old(deps), deps, files) && f in deps
      ensures scanned == old(scanned) + {f} + inner
      ensures Explored(Deps, Deps, s, files, start, deps, found + {f} + inner)
      ensures forall x :: x in deps && x !in old(deps) ==> x == f || x in inner
    {
      ghost var before := deps;
      deps := deps + [f];
      scanned := scanned + {f};
      assert f !in Unvisited();
      inner := FindDependencies(files[f]);
      ExploredStep(Deps, Deps, s, files, start, before, deps, found, f, inner);
    }
  }
}
