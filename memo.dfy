/**
 * The engine object `Mem` of mem_/__init__.py: its dependency stack, its
 * `get_hash`, `memoize` and `_run_task`. Each method is proved to change the
 * state exactly as the functions of MemoSpec say, so the round trip and the
 * other properties proved there hold for these methods.
 */
module Memo {
  import opened Hashing
  import opened Nodes
  import opened Stacks
  import opened MemoSpec

  class Mem {
    const ctx: Context
    const stack: DepsStack
    const pickle: Value -> string
    const depsDir: string
    const resultsDir: string
    var depsRecords: map<string, Record<seq<Value>>>
    var resultRecords: map<string, Record<Value>>
    /** How many times a task body has been run. */
    ghost var bodyRuns: nat

    constructor (ctx: Context, pickle: Value -> string, depsDir: string, resultsDir: string)
      ensures this.ctx == ctx && this.pickle == pickle
      ensures this.depsDir == depsDir && this.resultsDir == resultsDir
      ensures fresh(stack) && stack.frames == []
      ensures depsRecords == map[] && resultRecords == map[] && bodyRuns == 0
    {
      this.ctx := ctx;
      this.pickle := pickle;
      this.depsDir := depsDir;
      this.resultsDir := resultsDir;
      stack := new DepsStack();
      depsRecords := map[];
      resultRecords := map[];
      bodyRuns := 0;
    }

    function Env(): Env {
      MemoSpec.Env(ctx.sha1, pickle, depsDir, resultsDir, ctx.blobDir, ctx.newFileMode)
    }

    function State(): State
      reads this, ctx
    {
      MemoSpec.State(ctx.fs, ctx.memo, depsRecords, resultRecords, ctx.failed)
    }

    /** `get_hash(*values)`: each file among the values has its hash
        recorded in the memo, and the key is computed from those hashes. */
    method GetHash(values: seq<Value>) returns (h: string)
      modifies ctx`memo
      ensures ctx.memo == Warm(ctx.sha1, ctx.fs, old(ctx.memo), HashedPaths(UnderscorePackage, values))
      ensures h == KeyOf(UnderscorePackage, Env(), ctx.fs, ctx.memo, values)
    {
      ctx.WarmHashes(HashedPaths(UnderscorePackage, values));
      h := KeyOf(UnderscorePackage, Env(), ctx.fs, ctx.memo, values);
    }

    /** `add_dep(d)` on this thread's stack. */
    method AddDep(d: Value)
      requires |stack.frames| > 0
      modifies stack
      ensures stack.frames == AppendTop(old(stack.frames), [d])
    {
      stack.AddDep(d);
    }

    /** `add_deps(ds)` on this thread's stack. */
    method AddDeps(ds: seq<Value>)
      requires |stack.frames| > 0
      modifies stack
      ensures stack.frames == AppendTop(old(stack.frames), ds)
    {
      stack.AddDeps(ds);
    }

    /** `fail(msg)`: mark the build failed and exit. */
    method Fail() returns (out: Outcome)
      modifies ctx`failed
      ensures ctx.failed && out == Exit
    {
      ctx.failed := true;
      out := Exit;
    }

    /** The two reads at the start of `memoize`. */
    method Probe(t: Task, args: seq<Value>, kwargs: seq<Entry>) returns (tchash: string, found: Found)
      modifies ctx`memo
      ensures var probe := Lookup(Env(), old(State()), t, args, kwargs);
        ctx.memo == probe.memo && tchash == probe.tchash && found == probe.found
    {
      tchash := GetHash(CallValues(t, args, kwargs));
      var dpath := DepsPath(Env(), tchash);
      if dpath !in depsRecords {
        return tchash, NoDeps;
      }
      if depsRecords[dpath].Garbled? {
        return tchash, Corrupt(dpath);
      }
      var deps := depsRecords[dpath].value;
      var rhash := GetHash(KeyValues(tchash, deps));
      var rpath := ResultsPath(Env(), rhash);
      if rpath !in resultRecords {
        return tchash, NoResult;
      }
      if resultRecords[rpath].Garbled? {
        return tchash, Corrupt(rpath);
      }
      found := Hit(deps, resultRecords[rpath].value);
    }

    /** `memoize(taskf)(*args, **kwargs)`: on a hit, restore the result's
        nodes and return it; otherwise run the task. */
    method Memoize(t: Task, args: seq<Value>, kwargs: seq<Entry>) returns (out: Outcome)
      modifies this, ctx, stack
      ensures var s := MemoizeStep(Env(), old(State()), t, args, kwargs);
        && State() == s.st && out == s.out
        && bodyRuns == old(bodyRuns) + (if s.ran then 1 else 0)
      ensures out != Exit ==> stack.frames == old(stack.frames)
    {
      var tchash, found := Probe(t, args, kwargs);
      out := Answer(t, args, kwargs, tchash, found);
    }

    /** The rest of `memoize` once the lookup has found what it found. */
    method Answer(t: Task, args: seq<Value>, kwargs: seq<Entry>, tchash: string, found: Found)
      returns (out: Outcome)
      modifies this, ctx, stack
      ensures var s := AnswerStep(Env(), old(State()), t, args, kwargs, tchash, found);
        && State() == s.st && out == s.out
        && bodyRuns == old(bodyRuns) + (if s.ran then 1 else 0)
      ensures out != Exit ==> stack.frames == old(stack.frames)
    {
      match found {
        case Corrupt(p) =>
          out := Raised(Unreadable(p));
        case NoDeps =>
          out := RunTask(t, args, kwargs, tchash);
        case NoResult =>
          out := RunTask(t, args, kwargs, tchash);
        case Hit(_, result) =>
          var ok := ctx.RestoreResult(result);
          if ok {
            out := Returned(result);
          } else {
            out := RunTask(t, args, kwargs, tchash);
          }
      }
    }

    /** `_run_task(taskf, args, kwargs, tchash)`. */
    method RunTask(t: Task, args: seq<Value>, kwargs: seq<Entry>, tchash: string) returns (out: Outcome)
      modifies this, ctx, stack
      ensures var s := RunStep(UnderscorePackage, Env(), old(State()), t, args, kwargs, tchash, []);
        State() == s.st && out == s.out
      ensures bodyRuns == old(bodyRuns) + 1
      ensures out != Exit ==> stack.frames == old(stack.frames)
      ensures out == Exit ==> stack.frames == old(stack.frames) + [t.body(args, kwargs, old(ctx.fs)).deps]
    {
      stack.CallStart();
      var run := t.body(args, kwargs, ctx.fs);
      bodyRuns := bodyRuns + 1;
      ctx.fs := run.fs;
      ctx.memo := run.hashed + ctx.memo;
      depsRecords := depsRecords + run.depsWritten;
      resultRecords := resultRecords + run.resultsWritten;
      ctx.failed := ctx.failed || run.failed;
      stack.AddDeps(run.deps);
      NestedCallIsolated(old(stack.frames), run.deps);
      if ctx.failed {
        return Exit;
      }
      var deps := stack.CallFinish();
      out := Persist(tchash, deps, run.result);
    }

    /** The end of `_run_task`: store the result's nodes, then write the
        deps record and the result record. */
    method Persist(tchash: string, deps: seq<Value>, result: Value) returns (out: Outcome)
      modifies this`depsRecords, this`resultRecords, ctx`fs, ctx`memo
      ensures var s := PersistStep(UnderscorePackage, Env(), old(State()), tchash, deps, result);
        State() == s.st && out == s.out
    {
      var ok := ctx.StoreResult(result);
      if !ok {
        return Raised(StoreFailed);
      }
      depsRecords := depsRecords[DepsPath(Env(), tchash) := Readable(deps)];
      var rhash := GetHash(KeyValues(tchash, deps));
      resultRecords := resultRecords[ResultsPath(Env(), rhash) := Readable(result)];
      out := Returned(result);
    }
  }
}
