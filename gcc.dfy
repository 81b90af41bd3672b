/**
 * The C rules of mem/tasks/gcc.py: the include flag for the target's
 * directory, the `-combine` option, the choice of compile rule by
 * extension, the object targets `obj` derives, the link command of
 * `t_prog`, and the CFLAGS merge of `shared_obj`. Running the compiler
 * is not modelled; a compile or link step is described by the job it
 * would start. `Mem.fail` ends the build, so it is a `Failure` here.
 */
module Gcc {
  import opened Wrappers
  import opened Paths

  /** The two compile rules, `t_c_obj` and `t_cpp_obj`. */
  datatype Rule = CObj | CppObj

  /** A compile step: the rule, its target and its sources. */
  datatype Job = Job(rule: Rule, target: string, sources: seq<string>)

  /** Why `obj` calls `Mem.fail`. */
  datatype Error = MixedExtensions | UnknownExtension(ext: Option<string>)

  /** Some source lies in another directory than the target. */
  predicate ElsewhereThanTarget(target: string, sources: seq<string>) {
    exists s :: s in sources && Dirname(s) != Dirname(target)
  }

  /** `target_inc_flag(target, source_list)`. */
  method TargetIncFlag(target: string, sources: seq<string>) returns (r: seq<string>)
    ensures ElsewhereThanTarget(target, sources) ==> r == ["-I" + Dirname(target)]
    ensures !ElsewhereThanTarget(target, sources) ==> r == []
  {
    var incTarget := false;
    for i := 0 to |sources|
      invariant incTarget <==> exists j :: 0 <= j < i && Dirname(sources[j]) != Dirname(target)
    {
      if Dirname(target) != Dirname(sources[i]) {
        incTarget := true;
      }
    }
    if incTarget {
      r := ["-I" + Dirname(target)];
    } else {
      r := [];
    }
  }

  /** The `combine_opt` of `t_c_obj` and `t_cpp_obj`. */
  function CombineOpt(sources: seq<string>): (r: seq<string>)
    ensures "-combine" in r <==> |sources| > 1
    ensures r == [] || r == ["-combine"]
  {
    if |sources| > 1 then ["-combine"] else []
  }

  /** `build_obj`'s dispatch on the extension; None is `Mem.fail`. */
  function RuleFor(ext: Option<string>): (r: Option<Rule>)
    ensures r == Some(CObj) <==> ext == Some(".c")
    ensures r == Some(CppObj) <==> ext == Some(".cpp")
    ensures r.None? <==> ext != Some(".c") && ext != Some(".cpp")
  {
    if ext == Some(".c") then Some(CObj)
    else if ext == Some(".cpp") then Some(CppObj)
    else None
  }

  /** `build_obj(target, source, ext)`: the job it starts, or the failure. */
  function BuildObj(target: string, sources: seq<string>, ext: Option<string>): (r: Result<Job, Error>)
    ensures r.Success? <==> RuleFor(ext).Some?
    ensures r.Success? ==> r.value == Job(RuleFor(ext).value, target, sources)
    ensures r.Failure? ==> r.error == UnknownExtension(ext)
  {
    match RuleFor(ext)
    case Some(rule) => Success(Job(rule, target, sources))
    case None => Failure(UnknownExtension(ext))
  }

  /** The sources, each joined onto the working directory. */
  function Rooted(cwd: string, sources: seq<string>): (r: seq<string>)
    ensures |r| == |sources| && forall i :: 0 <= i < |sources| ==> r[i] == Join(cwd, sources[i])
  {
    seq(|sources|, i requires 0 <= i < |sources| => Join(cwd, sources[i]))
  }

  /** All the names have the same extension. */
  predicate SameExt(names: seq<string>) {
    forall i :: 0 <= i < |names| ==> SplitExt(names[i]).1 == SplitExt(names[0]).1
  }

  /** The extension `obj` dispatches on when one target is given: that of
      the first rooted source, or None without sources. */
  function BuildExt(cwd: string, sources: seq<string>): Option<string> {
    if sources == [] then None else Some(SplitExt(Join(cwd, sources[0])).1)
  }

  /** `obj(source_list, target)` with a target: all the sources go into one
      object under the build directory; mixed extensions fail first, then
      an extension other than `.c` or `.cpp` (or no source at all). */
  method ObjWithTarget(cwd: string, buildDir: string, sources: seq<string>, target: string)
    returns (r: Result<Job, Error>)
    ensures !SameExt(Rooted(cwd, sources)) ==> r == Failure(MixedExtensions)
    ensures SameExt(Rooted(cwd, sources)) ==>
      r == BuildObj(Join(buildDir, target), Rooted(cwd, sources), BuildExt(cwd, sources))
  {
    var buildExt: Option<string> := None;
    var rooted: seq<string> := [];
    for i := 0 to |sources|
      invariant |rooted| == i && forall k :: 0 <= k < i ==> rooted[k] == Join(cwd, sources[k])
      invariant i == 0 ==> buildExt.None?
      invariant i > 0 ==> buildExt == Some(SplitExt(rooted[0]).1)
      invariant SameExt(rooted)
    {
      var source := Join(cwd, sources[i]);
      var ext := SplitExt(source).1;
      if buildExt.None? {
        buildExt := Some(ext);
      } else if buildExt.value != ext {
        ghost var all := Rooted(cwd, sources);
        assert all[i] == source && all[0] == rooted[0];
        assert !SameExt(all);
        return Failure(MixedExtensions);
      }
      rooted := rooted + [source];
    }
    assert rooted == Rooted(cwd, sources);
    r := BuildObj(Join(buildDir, target), rooted, buildExt);
  }

  /** The object a source compiles to when no target is given:
      `<build dir>/<stem of its base name>.o`. */
  function ObjectName(buildDir: string, source: string): string {
    Join(buildDir, SplitExt(Basename(source)).0 + ".o")
  }

  /** The jobs `obj` starts without a target: one per source that is not a
      header, in source order; None when one of them has an extension
      `build_obj` does not know. */
  function ObjJobs(cwd: string, buildDir: string, sources: seq<string>): Option<seq<Job>> {
    if sources == [] then Some([])
    else
      ObjJobsStep(cwd, buildDir, ObjJobs(cwd, buildDir, sources[..|sources| - 1]), sources[|sources| - 1])
  }

  /** `obj(source_list)` without a target (None or the empty string). */
  method ObjEach(cwd: string, buildDir: string, sources: seq<string>) returns (r: Result<seq<Job>, Error>)
    ensures ObjJobs(cwd, buildDir, sources).Some? ==> r == Success(ObjJobs(cwd, buildDir, sources).value)
    ensures ObjJobs(cwd, buildDir, sources).None? ==> r.Failure? && r.error.UnknownExtension?
  {
    var jobs: seq<Job> := [];
    for i := 0 to |sources|
      invariant ObjJobs(cwd, buildDir, sources[..i]) == Some(jobs)
    {
      var ext := SplitExt(Basename(sources[i])).1;
      var target := ObjectName(buildDir, sources[i]);
      var source := Join(cwd, sources[i]);
      ObjJobsNext(cwd, buildDir, sources, i);
      if ext != ".h" {
        var job := BuildObj(target, [source], Some(ext));
        if job.Failure? {
          ObjJobsFailure(cwd, buildDir, sources, i + 1);
          return Failure(job.error);
        }
        jobs := jobs + [job.value];
      }
    }
    assert sources[..|sources|] == sources;
    r := Success(jobs);
  }

  /** Once a prefix of the sources fails, so do all of them. */
  lemma {:induction false} ObjJobsFailure(cwd: string, buildDir: string, sources: seq<string>, n: nat)
    requires n <= |sources| && ObjJobs(cwd, buildDir, sources[..n]).None?
    ensures ObjJobs(cwd, buildDir, sources).None?
    decreases |sources| - n
  {
    if n < |sources| {
      ObjJobsNext(cwd, buildDir, sources, n);
      ObjJobsFailure(cwd, buildDir, sources, n + 1);
    } else {
      assert sources[..n] == sources;
    }
  }

  /** The step ObjJobs takes for one more source. */
  function ObjJobsStep(cwd: string, buildDir: string, rest: Option<seq<Job>>, s: string): Option<seq<Job>> {
    var ext := SplitExt(Basename(s)).1;
    if ext == ".h" then rest
    else if rest.None? || RuleFor(Some(ext)).None? then None
    else Some(rest.value + [Job(RuleFor(Some(ext)).value, ObjectName(buildDir, s), [Join(cwd, s)])])
  }

  /** ObjJobs of one more source of a list. */
  lemma ObjJobsNext(cwd: string, buildDir: string, sources: seq<string>, n: nat)
    requires n < |sources|
    ensures ObjJobs(cwd, buildDir, sources[..n + 1]) == ObjJobsStep(cwd, buildDir, ObjJobs(cwd, buildDir, sources[..n]), sources[n])
  {
    assert sources[..n + 1][..n] == sources[..n];
  }

  /** Jobs keep source order: the jobs of two runs of sources are the jobs
      of the first, then of the second. */
  lemma {:induction false} ObjJobsAppend(cwd: string, buildDir: string, a: seq<string>, b: seq<string>)
    requires ObjJobs(cwd, buildDir, a + b).Some?
    ensures ObjJobs(cwd, buildDir, a).Some? && ObjJobs(cwd, buildDir, b).Some?
    ensures ObjJobs(cwd, buildDir, a + b).value == ObjJobs(cwd, buildDir, a).value + ObjJobs(cwd, buildDir, b).value
    decreases |b|
  {
    if b == [] {
      assert a + b == a;
    } else {
      var b', x := b[..|b| - 1], b[|b| - 1];
      ObjJobsLast(cwd, buildDir, a, b);
      ObjJobsAppend(cwd, buildDir, a, b');
      StepAppend(cwd, buildDir, ObjJobs(cwd, buildDir, a).value, ObjJobs(cwd, buildDir, b'), x);
    }
  }

  /** ObjJobs of a + b and of b, taken apart at the last source of b. */
  lemma ObjJobsLast(cwd: string, buildDir: string, a: seq<string>, b: seq<string>)
    requires b != []
    ensures ObjJobs(cwd, buildDir, a + b) == ObjJobsStep(cwd, buildDir, ObjJobs(cwd, buildDir, a + b[..|b| - 1]), b[|b| - 1])
    ensures ObjJobs(cwd, buildDir, b) == ObjJobsStep(cwd, buildDir, ObjJobs(cwd, buildDir, b[..|b| - 1]), b[|b| - 1])
  {
    assert (a + b)[..|a + b| - 1] == a + b[..|b| - 1];
  }

  /** The step for one more source only appends to what came before. */
  lemma StepAppend(cwd: string, buildDir: string, front: seq<Job>, rest: Option<seq<Job>>, x: string)
    requires ObjJobsStep(cwd, buildDir, if rest.Some? then Some(front + rest.value) else None, x).Some?
    ensures rest.Some? && ObjJobsStep(cwd, buildDir, rest, x).Some?
    ensures ObjJobsStep(cwd, buildDir, Some(front + rest.value), x).value == front + ObjJobsStep(cwd, buildDir, rest, x).value
  {
  }

  /** Each job compiles one rooted source that is not a header into the
      object named after it, and there is one job per such source. */
  lemma {:induction false} ObjJobsShape(cwd: string, buildDir: string, sources: seq<string>)
    requires ObjJobs(cwd, buildDir, sources).Some?
    ensures var jobs := ObjJobs(cwd, buildDir, sources).value;
      && |jobs| == |NonHeaders(sources)|
      && forall k :: 0 <= k < |jobs| ==>
        jobs[k].target == ObjectName(buildDir, NonHeaders(sources)[k])
        && jobs[k].sources == [Join(cwd, NonHeaders(sources)[k])]
  {
    if sources != [] {
      ObjJobsShape(cwd, buildDir, sources[..|sources| - 1]);
    }
  }

  /** The sources that are not headers, in order. */
  function NonHeaders(sources: seq<string>): (r: seq<string>)
    ensures forall s :: s in r ==> s in sources && SplitExt(Basename(s)).1 != ".h"
    ensures forall s :: s in sources && SplitExt(Basename(s)).1 != ".h" ==> s in r
  {
    if sources == [] then []
    else if SplitExt(Basename(sources[|sources| - 1])).1 == ".h" then NonHeaders(sources[..|sources| - 1])
    else NonHeaders(sources[..|sources| - 1]) + [sources[|sources| - 1]]
  }

  /** Each name with the flag in front, in order. */
  function Prefixed(flag: string, names: seq<string>): (r: seq<string>)
    ensures |r| == |names| && forall i :: 0 <= i < |names| ==> r[i] == flag + names[i]
  {
    seq(|names|, i requires 0 <= i < |names| => flag + names[i])
  }

  /** The command `t_prog` runs. */
  function ProgArgs(cc: string, target: string, cflags: seq<string>, linkFlags: seq<string>,
                    libPath: seq<string>, libs: seq<string>, objs: seq<string>): seq<string> {
    [cc, "-o", target] + cflags + linkFlags + Prefixed("-L", libPath) + objs + Prefixed("-l", libs)
  }

  /** The link command names the compiler and the output first, then the
      compiler flags and the link flags, each in the order given. */
  lemma ProgArgsHead(cc: string, target: string, cflags: seq<string>, linkFlags: seq<string>,
                     libPath: seq<string>, libs: seq<string>, objs: seq<string>)
    ensures var args := ProgArgs(cc, target, cflags, linkFlags, libPath, libs, objs);
      && |args| == 3 + |cflags| + |linkFlags| + |libPath| + |objs| + |libs|
      && args[0] == cc && args[1] == "-o" && args[2] == target
      && (forall i :: 0 <= i < |cflags| ==> args[3 + i] == cflags[i])
      && (forall i :: 0 <= i < |linkFlags| ==> args[3 + |cflags| + i] == linkFlags[i])
  {
    var x0 := [cc, "-o", target] + cflags;
    var x1 := x0 + linkFlags;
    var args := ProgArgs(cc, target, cflags, linkFlags, libPath, libs, objs);
    assert forall i :: 0 <= i < |x1| ==> args[i] == x1[i];
    assert forall i :: 0 <= i < |x0| ==> x1[i] == x0[i];
  }

  /** After the flags come a `-L` per library directory, the objects and a
      `-l` per library, each in the order given. */
  lemma ProgArgsTail(cc: string, target: string, cflags: seq<string>, linkFlags: seq<string>,
                     libPath: seq<string>, libs: seq<string>, objs: seq<string>)
    ensures var args := ProgArgs(cc, target, cflags, linkFlags, libPath, libs, objs);
      var p := 3 + |cflags| + |linkFlags|;
      var o := p + |libPath|;
      var l := o + |objs|;
      && |args| == l + |libs|
      && (forall i :: 0 <= i < |libPath| ==> args[p + i] == "-L" + libPath[i])
      && (forall i :: 0 <= i < |objs| ==> args[o + i] == objs[i])
      && (forall i :: 0 <= i < |libs| ==> args[l + i] == "-l" + libs[i])
  {
    var x1 := [cc, "-o", target] + cflags + linkFlags;
    var x2 := x1 + Prefixed("-L", libPath);
    var x3 := x2 + objs;
    var args := x3 + Prefixed("-l", libs);
    assert forall i :: 0 <= i < |x3| ==> args[i] == x3[i];
    assert forall i :: 0 <= i < |x2| ==> x3[i] == x2[i];
  }

  /** `shared_obj`'s CFLAGS: `-shared`, then the CFLAGS passed as a keyword,
      which are taken out of the keywords, or else the environment's
      (without an environment that is an AttributeError). The rest of the
      keywords go on to `t_prog` unchanged. */
  function SharedCFlags<T>(kwargs: map<string, T>, flagsOf: T -> seq<string>, envCFlags: Option<seq<string>>)
    : (r: Result<(map<string, T>, seq<string>), string>)
    ensures "CFLAGS" in kwargs || envCFlags.Some? <==> r.Success?
    ensures r.Success? ==> r.value.0 == kwargs - {"CFLAGS"}
    ensures r.Success? ==> |r.value.1| > 0 && r.value.1[0] == "-shared"
    ensures r.Success? && "CFLAGS" in kwargs ==> r.value.1[1..] == flagsOf(kwargs["CFLAGS"])
    ensures r.Success? && "CFLAGS" !in kwargs ==> r.value.1[1..] == envCFlags.value
  {
    if "CFLAGS" in kwargs then Success((kwargs - {"CFLAGS"}, ["-shared"] + flagsOf(kwargs["CFLAGS"])))
    else if envCFlags.Some? then Success((kwargs, ["-shared"] + envCFlags.value))
    else Failure("'NoneType' object has no attribute 'CFLAGS'")
  }
}
