/**
 * The recursive dependency search both pdflatex builders share: a list of
 * the existing files found so far, in the order found and without
 * repetition, grown by appending names that exist and are not yet listed,
 * and searched in turn. `cover` gives the names whose existing files a
 * text adds to the list, `follow` the ones among them whose contents are
 * searched in turn. The predicates take the list as a value so that both
 * builders' methods can state and preserve them.
 */
module DepSearch {
  /** Each file in searched exists, is in deps but was not in before, has
      every existing name cover gives for its contents in deps, and was
      found from s by following names. */
  ghost predicate Explored(cover: string -> seq<string>, follow: string -> seq<string>, s: string, files: map<string, string>, before: seq<string>, deps: seq<string>, searched: set<string>) {
    forall f :: f in searched ==>
      && f in files && f in deps && f !in before
      && Covered(cover, files[f], files, deps) && FoundFrom(follow, f, s, files, searched)
  }

  /** One step of the search loop: the files searched so far, the file f
      just appended, and the files the recursive search of f went through
      together are explored from s. */
  lemma ExploredStep(cover: string -> seq<string>, follow: string -> seq<string>, s: string, files: map<string, string>, start: seq<string>, before: seq<string>,
                     deps: seq<string>, found: set<string>, f: string, inner: set<string>)
    requires Explored(cover, follow, s, files, start, before, found)
    requires forall x :: x in start ==> x in before
    requires forall x :: x in before ==> x in deps
    requires f in files && f in follow(s) && f !in before && f in deps
    requires Covered(cover, files[f], files, deps)
    requires Explored(cover, follow, files[f], files, before + [f], deps, inner)
    ensures Explored(cover, follow, s, files, start, deps, found + {f} + inner)
  {
    var all := found + {f} + inner;
    forall x | x in all
      ensures x in files && x in deps && x !in start
      ensures Covered(cover, files[x], files, deps) && FoundFrom(follow, x, s, files, all)
    {
      if x in found {
        CoveredGrows(cover, files[x], files, before, deps);
        FoundFromGrows(follow, x, s, files, found, all);
      } else if x == f {
      } else {
        assert x !in before + [f];
        FoundFromStep(follow, x, s, files, f, inner, all);
      }
    }
  }

  /** Every existing name cover(text) gives is among deps. */
  ghost predicate Covered(cover: string -> seq<string>, text: string, files: map<string, string>, deps: seq<string>) {
    forall g :: g in cover(text) && g in files ==> g in deps
  }

  /** x is a name follow gives for s or for the contents of one of the
      files in searched. */
  ghost predicate FoundFrom(follow: string -> seq<string>, x: string, s: string, files: map<string, string>, searched: set<string>) {
    x in follow(s) || exists g :: g in searched && g in files && x in follow(files[g])
  }

  lemma CoveredGrows(cover: string -> seq<string>, text: string, files: map<string, string>, d1: seq<string>, d2: seq<string>)
    requires Covered(cover, text, files, d1) && forall x :: x in d1 ==> x in d2
    ensures Covered(cover, text, files, d2)
  {
  }

  lemma FoundFromGrows(follow: string -> seq<string>, x: string, s: string, files: map<string, string>, a: set<string>, b: set<string>)
    requires FoundFrom(follow, x, s, files, a) && a <= b
    ensures FoundFrom(follow, x, s, files, b)
  {
  }

  /** Found from the contents of f, which is itself searched, is found. */
  lemma FoundFromStep(follow: string -> seq<string>, x: string, s: string, files: map<string, string>, f: string, a: set<string>, b: set<string>)
    requires f in files && FoundFrom(follow, x, files[f], files, a) && a <= b && f in b
    ensures FoundFrom(follow, x, s, files, b)
  {
  }

  /** Everything in before is still in after, in the same place, nothing
      in after occurs twice, and what has been added is in files. */
  ghost predicate Extends(before: seq<string>, after: seq<string>, files: map<string, string>) {
    && before <= after && Distinct(after)
    && (forall f :: f in before ==> f in after)
    && (forall f :: f in after && f !in before ==> f in files)
  }

  /** Every name in names that is in files is in deps. */
  ghost predicate Listed(names: seq<string>, files: map<string, string>, deps: seq<string>) {
    forall f :: f in names && f in files ==> f in deps
  }

  lemma ListedGrows(names: seq<string>, files: map<string, string>, d1: seq<string>, d2: seq<string>)
    requires Listed(names, files, d1) && Extends(d1, d2, files)
    ensures Listed(names, files, d2)
  {
  }

  lemma ListedNext(names: seq<string>, i: nat, files: map<string, string>, d1: seq<string>, d2: seq<string>)
    requires i < |names| && Listed(names[..i], files, d1) && Extends(d1, d2, files)
    requires names[i] in files ==> names[i] in d2
    ensures Listed(names[..i + 1], files, d2)
  {
    assert names[..i + 1] == names[..i] + [names[i]];
  }

  lemma ExtendsTrans(a: seq<string>, b: seq<string>, c: seq<string>, files: map<string, string>)
    requires Extends(a, b, files) && Extends(b, c, files)
    ensures Extends(a, c, files)
  {
  }

  /** Every file added to deps since before was either searched or is a
      name leaf gives for s or for the contents of a searched file: the
      search adds nothing else, and leaves unsearched only what leaf
      names. */
  ghost predicate Accounted(leaf: string -> seq<string>, s: string, files: map<string, string>, before: seq<string>, deps: seq<string>, searched: set<string>) {
    forall f :: f in deps && f !in before ==> f in searched || FoundFrom(leaf, f, s, files, searched)
  }

  /** The step of the search loop for Accounted: what the recursive search
      of f added is accounted for from f's contents, so from s. */
  lemma AccountedStep(leaf: string -> seq<string>, s: string, files: map<string, string>, start: seq<string>, before: seq<string>,
                      deps: seq<string>, found: set<string>, f: string, inner: set<string>)
    requires Accounted(leaf, s, files, start, before, found)
    requires f in files && forall x :: x in before ==> x in deps
    requires Accounted(leaf, files[f], files, before + [f], deps, inner)
    ensures Accounted(leaf, s, files, start, deps, found + {f} + inner)
  {
    var all := found + {f} + inner;
    forall x | x in deps && x !in start
      ensures x in all || FoundFrom(leaf, x, s, files, all)
    {
      if x in before {
        if x !in found {
          FoundFromGrows(leaf, x, s, files, found, all);
        }
      } else if x != f {
        assert x !in before + [f];
        if x !in inner {
          FoundFromStep(leaf, x, s, files, f, inner, all);
        }
      }
    }
  }

  /** deps holds every existing name cover gives for the contents of each
      file in it. */
  ghost predicate Closed(cover: string -> seq<string>, files: map<string, string>, deps: seq<string>) {
    forall f, g :: f in deps && f in files && g in cover(files[f]) && g in files ==> g in deps
  }

  /** A search that started from an empty list and searched every file it
      listed leaves a list closed under cover: the search tracks every
      dependency down. */
  lemma ExploredCloses(cover: string -> seq<string>, follow: string -> seq<string>, s: string, files: map<string, string>, deps: seq<string>, searched: set<string>)
    requires Explored(cover, follow, s, files, [], deps, searched)
    requires forall f :: f in deps ==> f in searched
    ensures Closed(cover, files, deps)
  {
    forall f, g | f in deps && f in files && g in cover(files[f]) && g in files
      ensures g in deps
    {
      assert f in searched;
      assert Covered(cover, files[f], files, deps);
    }
  }

  /** No name occurs twice. */
  predicate Distinct(xs: seq<string>) {
    forall i, j :: 0 <= i < j < |xs| ==> xs[i] != xs[j]
  }
}
