/**
 * The helpers of mem_/util.py: `flatten`, `with_env`, `convert_cmd`,
 * `search_file` and the string branch of `get_build_dir`.
 */
module Util {
  import opened Wrappers
  import opened Paths

  /** The two sequence types `flatten` opens up. */
  datatype Kind = List | Tuple

  /** An element of a list handed to `flatten`: a value of any other type,
      or a nested list or tuple. */
  datatype Item<T> = Leaf(value: T) | Nested(kind: Kind, items: seq<Item<T>>)

  /** The leaves of a list, left to right, at any depth. */
  function Leaves<T>(items: seq<Item<T>>): (r: seq<Item<T>>)
    ensures forall k :: 0 <= k < |r| ==> r[k].Leaf?
    decreases items
  {
    if items == [] then [] else LeavesOf(items[0]) + Leaves(items[1..])
  }

  function LeavesOf<T>(x: Item<T>): (r: seq<Item<T>>)
    ensures forall k :: 0 <= k < |r| ==> r[k].Leaf?
    decreases x
  {
    match x
    case Leaf(_) => [x]
    case Nested(_, xs) => Leaves(xs)
  }

  /** The number of list cells and leaves, the measure `flatten` consumes. */
  function Size<T>(items: seq<Item<T>>): nat
    decreases items
  {
    if items == [] then 0 else SizeOf(items[0]) + Size(items[1..])
  }

  function SizeOf<T>(x: Item<T>): nat
    decreases x
  {
    match x
    case Leaf(_) => 1
    case Nested(_, xs) => 1 + Size(xs)
  }

  predicate AllLeaves<T>(items: seq<Item<T>>) {
    forall k :: 0 <= k < |items| ==> items[k].Leaf?
  }

  /** The leaves of a concatenation are the leaves of each part, in order. */
  lemma {:induction false} LeavesAppend<T>(a: seq<Item<T>>, b: seq<Item<T>>)
    ensures Leaves(a + b) == Leaves(a) + Leaves(b)
    decreases |a|
  {
    if a == [] {
      assert a + b == b;
    } else {
      assert (a + b)[0] == a[0];
      assert (a + b)[1..] == a[1..] + b;
      LeavesAppend(a[1..], b);
    }
  }

  lemma {:induction false} SizeAppend<T>(a: seq<Item<T>>, b: seq<Item<T>>)
    ensures Size(a + b) == Size(a) + Size(b)
    decreases |a|
  {
    if a == [] {
      assert a + b == b;
    } else {
      assert (a + b)[0] == a[0];
      assert (a + b)[1..] == a[1..] + b;
      SizeAppend(a[1..], b);
    }
  }

  /** A list of leaves is its own list of leaves. */
  lemma {:induction false} LeavesOfFlat<T>(items: seq<Item<T>>)
    requires AllLeaves(items)
    ensures Leaves(items) == items
    decreases |items|
  {
    if items != [] {
      LeavesOfFlat(items[1..]);
    }
  }

  /** Flattening twice is flattening once. */
  lemma LeavesIdempotent<T>(items: seq<Item<T>>)
    ensures Leaves(Leaves(items)) == Leaves(items)
  {
    LeavesOfFlat(Leaves(items));
  }

  /** Empty nested lists and tuples vanish, at any depth. */
  lemma EmptyNestedVanishes<T>(a: seq<Item<T>>, kind: Kind, b: seq<Item<T>>)
    ensures Leaves(a + [Nested(kind, [])] + b) == Leaves(a + b)
  {
    LeavesAppend(a + [Nested(kind, [])], b);
    LeavesAppend(a, [Nested(kind, [])]);
    LeavesAppend(a, b);
  }

  /** The leaves and size of a one-cell list. */
  lemma Single<T>(x: Item<T>)
    ensures Leaves([x]) == LeavesOf(x)
    ensures Size([x]) == SizeOf(x)
  {
    assert [x][1..] == [];
  }

  /** Replacing one cell by its contents keeps the leaves and shrinks the size. */
  lemma Splice<T>(l: seq<Item<T>>, i: nat)
    requires i < |l| && l[i].Nested?
    ensures Leaves(l[..i] + l[i].items + l[i + 1..]) == Leaves(l)
    ensures Size((l[..i] + l[i].items + l[i + 1..])[i..]) < Size(l[i..])
  {
    var pre, x, post := l[..i], l[i], l[i + 1..];
    var xs := x.items;
    assert l == pre + ([x] + post);
    assert pre + xs + post == pre + (xs + post);
    LeavesAppend(pre, [x] + post);
    LeavesAppend([x], post);
    Single(x);
    LeavesAppend(pre, xs + post);
    LeavesAppend(xs, post);
    assert (pre + xs + post)[i..] == xs + post;
    assert l[i..] == [x] + post;
    SizeAppend(xs, post);
    SizeAppend([x], post);
  }

  /** Removing an empty cell keeps the leaves and shrinks the size. */
  lemma Remove<T>(l: seq<Item<T>>, i: nat)
    requires i < |l| && l[i].Nested? && l[i].items == []
    ensures Leaves(l[..i] + l[i + 1..]) == Leaves(l)
    ensures Size((l[..i] + l[i + 1..])[i..]) < Size(l[i..])
  {
    var pre, x, post := l[..i], l[i], l[i + 1..];
    assert l == pre + ([x] + post);
    LeavesAppend(pre, [x] + post);
    LeavesAppend([x], post);
    Single(x);
    assert LeavesOf(x) == [];
    assert Leaves([x] + post) == Leaves(post);
    LeavesAppend(pre, post);
    calc {
      Leaves(l);
      Leaves(pre) + Leaves([x] + post);
      Leaves(pre) + Leaves(post);
      Leaves(pre + post);
    }
    assert (pre + post)[i..] == post;
    assert l[i..] == [x] + post;
    SizeAppend([x], post);
  }

  lemma StepOverLeaf<T>(l: seq<Item<T>>, i: nat)
    requires i < |l| && l[i].Leaf?
    ensures Size(l[i + 1..]) < Size(l[i..])
  {
    assert l[i..][1..] == l[i + 1..];
  }

  /** `flatten(l)`: the list or tuple of the leaves of l, in order, with the
      type of l. The loop works in place on a copy: a nested cell at i is
      replaced by its contents, an empty one is popped. */
  method Flatten<T>(kind: Kind, items: seq<Item<T>>) returns (r: Item<T>)
    ensures r == Nested(kind, Leaves(items))
  {
    var l := items;
    var i := 0;
    while i < |l|
      invariant 0 <= i <= |l|
      invariant AllLeaves(l[..i])
      invariant Leaves(l) == Leaves(items)
      decreases Size(l[i..])
    {
      ghost var before := Size(l[i..]);
      ghost var start := i;
      while l[i].Nested?
        invariant i == start && i < |l|
        invariant AllLeaves(l[..i])
        invariant Leaves(l) == Leaves(items)
        invariant Size(l[i..]) <= before
        decreases Size(l[i..])
      {
        if l[i].items == [] {
          Remove(l, i);
          l := l[..i] + l[i + 1..];
          i := i - 1;
          break;
        } else {
          Splice(l, i);
          l := l[..i] + l[i].items + l[i + 1..];
        }
      }
      if i == start {
        StepOverLeaf(l, i);
      }
      i := i + 1;
    }
    LeavesOfFlat(l);
    r := Nested(kind, l);
  }

  /** The value `with_env` passes for a declared key k when an env is
      given: the keyword when it is truthy, else the env's, else the
      default. */
  function EnvValue<T>(defaults: map<string, T>, truthy: T -> bool, fkwargs: map<string, T>,
                       fenv: map<string, T>, k: string): T
    requires k in defaults
  {
    if k in fkwargs && truthy(fkwargs[k]) then fkwargs[k]
    else if k in fenv then fenv[k]
    else defaults[k]
  }

  /** `new_f(*args, **fkwargs)` of `with_env(**defaults)`: when an `env`
      keyword was passed it is taken out, and each declared key whose
      keyword is missing or falsy takes the env's value if the env has the
      key, else the declared default. Without `env` the keywords pass
      through untouched. A falsy env (None, empty) is an env with no keys.
      `keys` is the order of `defaults.keys()`. */
  method WithEnv<T>(defaults: map<string, T>, keys: seq<string>, truthy: T -> bool,
                    fkwargs: map<string, T>, env: Option<map<string, T>>)
    returns (passed: map<string, T>)
    requires forall k :: k in keys <==> k in defaults
    requires "env" !in fkwargs   // the env keyword travels in `env`
    ensures env.None? ==> passed == fkwargs
    ensures env.Some? ==> passed.Keys == fkwargs.Keys + defaults.Keys
    ensures env.Some? ==> forall k :: k in fkwargs && k !in defaults ==> passed[k] == fkwargs[k]
    ensures env.Some? ==> forall k :: k in defaults ==>
      passed[k] == EnvValue(defaults, truthy, fkwargs, env.value, k)
  {
    passed := fkwargs;
    if env.None? {
      return;
    }
    var fenv := env.value;
    for i := 0 to |keys|
      invariant forall k :: k in passed <==> k in fkwargs || k in keys[..i]
      invariant forall k :: k in fkwargs && k !in keys[..i] ==> passed[k] == fkwargs[k]
      invariant forall k :: k in keys[..i] ==> passed[k] == EnvValue(defaults, truthy, fkwargs, fenv, k)
    {
      var k := keys[i];
      assert keys[..i + 1] == keys[..i] + [k];
      if k !in passed || !truthy(passed[k]) {
        if k in fenv {
          passed := passed[k := fenv[k]];
        } else {
          passed := passed[k := defaults[k]];
        }
      }
    }
    assert keys[..|keys|] == keys;
  }

  /** `convert_cmd(lst)`: `str` of every argument, same length, same order. */
  function ConvertCmd<T>(lst: seq<T>, str: T -> string): (r: seq<string>)
    ensures |r| == |lst|
    ensures forall i :: 0 <= i < |lst| ==> r[i] == str(lst[i])
  {
    if lst == [] then [] else [str(lst[0])] + ConvertCmd(lst[1..], str)
  }

  /** Converting a concatenation converts each part. */
  lemma ConvertCmdAppend<T>(a: seq<T>, b: seq<T>, str: T -> string)
    ensures ConvertCmd(a + b, str) == ConvertCmd(a, str) + ConvertCmd(b, str)
  {
  }

  /** `s.split(sep)`: the pieces between separators, empty ones included;
      there is always at least one piece. */
  function Split(s: string, sep: char): (r: seq<string>)
    ensures |r| > 0
    ensures forall k :: 0 <= k < |r| ==> sep !in r[k]
  {
    if s == [] then [""]
    else
      var rest := Split(s[1..], sep);
      if s[0] == sep then [""] + rest else [[s[0]] + rest[0]] + rest[1..]
  }

  /** `sep.join(pieces)`. */
  function JoinWith(pieces: seq<string>, sep: char): string
    requires |pieces| > 0
  {
    if |pieces| == 1 then pieces[0] else pieces[0] + [sep] + JoinWith(pieces[1..], sep)
  }

  /** Splitting loses nothing: joining the pieces gives the string back. */
  lemma {:induction false} SplitJoin(s: string, sep: char)
    ensures JoinWith(Split(s, sep), sep) == s
  {
    if s != [] {
      SplitJoin(s[1..], sep);
      var rest := Split(s[1..], sep);
      if s[0] != sep {
        if |rest| > 1 {
          assert ([[s[0]] + rest[0]] + rest[1..])[1..] == rest[1..];
        }
      }
    }
  }

  /** The search path of `search_file`: a list of directories, or one
      string of directories separated by `os.path.pathsep`. */
  datatype SearchPath = Dirs(dirs: seq<string>) | DirString(s: string)

  const PathSep: char := ':'

  function SearchDirs(paths: SearchPath): seq<string> {
    match paths
    case Dirs(ds) => ds
    case DirString(s) => Split(s, PathSep)
  }

  /** `search_file(filename, paths)`: the file name itself if it exists,
      else the first directory of the search path (in order) under which it
      exists, else None. */
  method SearchFile(filename: string, paths: SearchPath, fileExists: string -> bool)
    returns (r: Option<string>)
    ensures fileExists(filename) ==> r == Some(filename)
    ensures !fileExists(filename) && r.Some? ==>
      exists i :: 0 <= i < |SearchDirs(paths)| && r.value == Join(SearchDirs(paths)[i], filename)
        && fileExists(r.value)
        && forall j :: 0 <= j < i ==> !fileExists(Join(SearchDirs(paths)[j], filename))
    ensures r.None? ==>
      !fileExists(filename) && forall j :: 0 <= j < |SearchDirs(paths)| ==> !fileExists(Join(SearchDirs(paths)[j], filename))
  {
    if fileExists(filename) {
      return Some(filename);
    }
    r := FirstUnder(filename, SearchDirs(paths), fileExists);
  }

  /** The loop of `search_file` over the directories. */
  method FirstUnder(filename: string, dirs: seq<string>, fileExists: string -> bool)
    returns (r: Option<string>)
    ensures r.Some? ==>
      exists i :: 0 <= i < |dirs| && r.value == Join(dirs[i], filename)
        && fileExists(r.value)
        && forall j :: 0 <= j < i ==> !fileExists(Join(dirs[j], filename))
    ensures r.None? ==> forall j :: 0 <= j < |dirs| ==> !fileExists(Join(dirs[j], filename))
  {
    for i := 0 to |dirs|
      invariant forall j :: 0 <= j < i ==> !fileExists(Join(dirs[j], filename))
    {
      var fp := Join(dirs[i], filename);
      if fileExists(fp) {
        return Some(fp);
      }
    }
    return None;
  }

  /** The string branch of `get_build_dir(env, arg_func)`: a non-empty
      string is the build directory itself; anything else is left to the
      other branches (None here). */
  function BuildDirFromString(argFunc: string): (r: Option<string>)
    ensures r.Some? <==> argFunc != ""
    ensures r.Some? ==> r.value == argFunc
  {
    if argFunc != "" then Some(argFunc) else None
  }
}
