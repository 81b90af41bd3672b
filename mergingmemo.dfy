/**
 * The engine object `Mem` of mem/_mem.py: the same run-and-persist protocol
 * with the merging dependency stack and the mem/_mem.py hash encoding.
 * This package has no `memoize` of its own (mem/__init__.py calls one that
 * mem/_mem.py does not define), so only `_run_task` is modelled here; its
 * lookup side is the one in memo.dfy.
 */
module MergingMemo {
  import opened Hashing
  import opened Nodes
  import opened Stacks
  import opened MemoSpec

  class Mem {
    const ctx: Context
    const stack: MergingDepsStack
    const pickle: Value -> string
    const depsDir: string
    const resultsDir: string
    var depsRecords: map<string, Record<seq<Value>>>
    var resultRecords: map<string, Record<Value>>

    constructor (ctx: Context, pickle: Value -> string, depsDir: string, resultsDir: string)
      ensures this.ctx == ctx && this.pickle == pickle
      ensures this.depsDir == depsDir && this.resultsDir == resultsDir
      ensures fresh(stack) && stack.frames == []
      ensures depsRecords == map[] && resultRecords == map[]
    {
      this.ctx := ctx;
      this.pickle := pickle;
      this.depsDir := depsDir;
      this.resultsDir := resultsDir;
      stack := new MergingDepsStack();
      depsRecords := map[];
      resultRecords := map[];
    }

    function Env(): Env {
      MemoSpec.Env(ctx.sha1, pickle, depsDir, resultsDir, ctx.blobDir, ctx.newFileMode)
    }

    function State(): State
      reads this, ctx
    {
      MemoSpec.State(ctx.fs, ctx.memo, depsRecords, resultRecords, ctx.failed)
    }

    /** `get_hash(*values)` with the mem/_mem.py encoding. */
    method GetHash(values: seq<Value>) returns (h: string)
      modifies ctx`memo
      ensures ctx.memo == Warm(ctx.sha1, ctx.fs, old(ctx.memo), HashedPaths(MemPackage, values))
      ensures h == KeyOf(MemPackage, Env(), ctx.fs, ctx.memo, values)
    {
      ctx.WarmHashes(HashedPaths(MemPackage, values));
      h := KeyOf(MemPackage, Env(), ctx.fs, ctx.memo, values);
    }

    /** `add_dep(d)` on this thread's stack. */
    method AddDep(d: Value)
      requires |stack.frames| > 0
      modifies stack
      ensures stack.frames == AppendTop(old(stack.frames), [d])
    {
      stack.AddDep(d);
    }

    /** `add_deps(ds)` on this thread's stack. */
    method AddDeps(ds: seq<Value>)
      requires |stack.frames| > 0
      modifies stack
      ensures stack.frames == AppendTop(old(stack.frames), ds)
    {
      stack.AddDeps(ds);
    }

    /** `fail(msg)`: mark the build failed and exit (a second call exits
        at once; either way the process ends). */
    method Fail() returns (out: Outcome)
      modifies ctx`failed
      ensures ctx.failed && out == Exit
    {
      ctx.failed := true;
      out := Exit;
    }

    /** `_run_task(taskf, args, kwargs, tchash)`, where `source` is the node
        of the source file of the module defining the task. */
    method RunTask(t: Task, args: seq<Value>, kwargs: seq<Entry>, tchash: string, source: Value)
      returns (out: Outcome)
      modifies this, ctx, stack
      ensures var s := RunStep(MemPackage, Env(), old(State()), t, args, kwargs, tchash, [source]);
        State() == s.st && out == s.out
      ensures var frame := [source] + t.body(args, kwargs, old(ctx.fs)).deps;
        && (out == Exit ==> stack.frames == old(stack.frames) + [frame])
        && (out != Exit && |old(stack.frames)| == 0 ==> stack.frames == [])
        && (out != Exit && |old(stack.frames)| > 0 ==> stack.frames == AppendTop(old(stack.frames), frame))
    {
      stack.CallStart(source);
      var run := t.body(args, kwargs, ctx.fs);
      ctx.fs := run.fs;
      ctx.memo := run.hashed + ctx.memo;
      depsRecords := depsRecords + run.depsWritten;
      resultRecords := resultRecords + run.resultsWritten;
      ctx.failed := ctx.failed || run.failed;
      stack.AddDeps(run.deps);
      ghost var inner := stack.frames;
      assert inner == AppendTop(old(stack.frames) + [[source]], run.deps);
      if ctx.failed {
        assert Below(inner) == old(stack.frames);
        return Exit;
      }
      var deps := stack.CallFinish();
      if |old(stack.frames)| > 0 {
        NestedCallMerged(old(stack.frames), source, run.deps);
      } else {
        OutermostCallLeavesEmpty(source, run.deps);
      }
      out := Persist(tchash, deps, run.result);
    }

    /** The end of `_run_task`: store the result's nodes, then write the
        deps record and the result record. */
    method Persist(tchash: string, deps: seq<Value>, result: Value) returns (out: Outcome)
      modifies this`depsRecords, this`resultRecords, ctx`fs, ctx`memo
      ensures var s := PersistStep(MemPackage, Env(), old(State()), tchash, deps, result);
        State() == s.st && out == s.out
    {
      var ok := ctx.StoreResult(result);
      if !ok {
        return Raised(StoreFailed);
      }
      depsRecords := depsRecords[DepsPath(Env(), tchash) := Readable(deps)];
      var rhash := GetHash(KeyValues(tchash, deps));
      resultRecords := resultRecords[ResultsPath(Env(), rhash) := Readable(result)];
      out := Returned(result);
    }
  }
}
