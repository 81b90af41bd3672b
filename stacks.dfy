/**
 * The per-thread dependency stack (`DepsStack`) of both packages: one frame
 * per memoized task that is running, each frame the list of dependencies
 * the task has declared so far. mem_/__init__.py pops a finished frame and
 * hands it back; mem/_mem.py seeds each frame with the node of the task's
 * own source file and, on finishing, also adds the frame to its caller's.
 */
module Stacks {
  import opened Hashing

  /** The stack, bottom first: `self.deps`. */
  type Frames = seq<seq<Value>>

  /** The frame of the task that is running now. */
  function Top(frames: Frames): seq<Value>
    requires |frames| > 0
  {
    frames[|frames| - 1]
  }

  /** The frames of the tasks waiting on it. */
  function Below(frames: Frames): Frames
    requires |frames| > 0
  {
    frames[..|frames| - 1]
  }

  /** `self.deps[-1].extend(ds)`. */
  function AppendTop(frames: Frames, ds: seq<Value>): Frames
    requires |frames| > 0
  {
    Below(frames) + [Top(frames) + ds]
  }

  /** The stack after mem/_mem.py's `call_finish`: the top frame is removed
      and, when a frame remains, added to the end of the new top. */
  function MergeDown(frames: Frames): (r: Frames)
    requires |frames| > 0
    ensures |r| == |frames| - 1
    ensures forall i :: 0 <= i < |r| - 1 ==> r[i] == frames[i]
    ensures |r| > 0 ==> r[|r| - 1] == frames[|frames| - 2] + frames[|frames| - 1]
  {
    if |frames| == 1 then [] else AppendTop(Below(frames), Top(frames))
  }

  /** Appending touches the top frame only: every lower frame is unchanged
      and the top frame keeps its old entries, in order, before ds. */
  lemma AppendTopShape(frames: Frames, ds: seq<Value>)
    requires |frames| > 0
    ensures var r := AppendTop(frames, ds);
      && |r| == |frames|
      && (forall i :: 0 <= i < |r| - 1 ==> r[i] == frames[i])
      && |r[|r| - 1]| == |frames[|frames| - 1]| + |ds|
      && r[|r| - 1][..|frames[|frames| - 1]|] == frames[|frames| - 1]
      && r[|r| - 1][|frames[|frames| - 1]|..] == ds
  {
  }

  /** Appending one list and then another is appending their concatenation,
      so `add_dep(d)` calls and `add_deps(ds)` calls build the frame in call
      order. */
  lemma AppendTopTwice(frames: Frames, ds1: seq<Value>, ds2: seq<Value>)
    requires |frames| > 0
    ensures AppendTop(AppendTop(frames, ds1), ds2) == AppendTop(frames, ds1 + ds2)
  {
    var r := AppendTop(frames, ds1);
    assert Below(r) == Below(frames);
    assert Top(frames) + ds1 + ds2 == Top(frames) + (ds1 + ds2);
  }

  /** mem_/__init__.py: a nested task's declared dependencies never reach
      its caller's frame. The caller's stack is back as it was, and the
      nested call hands back exactly what it declared. */
  lemma NestedCallIsolated(frames: Frames, ds: seq<Value>)
    ensures var inner := AppendTop(frames + [[]], ds);
      Below(inner) == frames && Top(inner) == ds
  {
  }

  /** mem/_mem.py: when a nested task finishes, its caller's frame gains the
      nested task's source node and everything it declared, in order. */
  lemma {:induction false} NestedCallMerged(frames: Frames, source: Value, ds: seq<Value>)
    requires |frames| > 0
    ensures var inner := AppendTop(frames + [[source]], ds);
      && Top(inner) == [source] + ds
      && MergeDown(inner) == AppendTop(frames, [source] + ds)
  {
    var inner := AppendTop(frames + [[source]], ds);
    assert Below(inner) == frames;
  }

  /** A finished outermost task leaves the stack empty in both packages. */
  lemma OutermostCallLeavesEmpty(source: Value, ds: seq<Value>)
    ensures MergeDown(AppendTop([[source]], ds)) == []
    ensures Below(AppendTop([[]], ds)) == []
  {
  }

  /** The stack of mem_/__init__.py (lines 18-32). */
  class DepsStack {
    var frames: Frames

    constructor ()
      ensures frames == []
    {
      frames := [];
    }

    /** `call_start`: push an empty frame. */
    method CallStart()
      modifies this
      ensures frames == old(frames) + [[]]
    {
      frames := frames + [[]];
    }

    /** `call_finish`: pop the top frame and return it. */
    method CallFinish() returns (deps: seq<Value>)
      requires |frames| > 0
      modifies this
      ensures deps == Top(old(frames))
      ensures frames == Below(old(frames))
    {
      deps := frames[|frames| - 1];
      frames := frames[..|frames| - 1];
    }

    /** `add_dep`. */
    method AddDep(d: Value)
      requires |frames| > 0
      modifies this
      ensures frames == AppendTop(old(frames), [d])
    {
      frames := AppendTop(frames, [d]);
    }

    /** `add_deps`. */
    method AddDeps(ds: seq<Value>)
      requires |frames| > 0
      modifies this
      ensures frames == AppendTop(old(frames), ds)
    {
      frames := AppendTop(frames, ds);
    }
  }

  /** The stack of mem/_mem.py (lines 45-68). */
  class MergingDepsStack {
    var frames: Frames

    constructor ()
      ensures frames == []
    {
      frames := [];
    }

    /** `call_start(mem, f)`: push a frame holding only the node of the
        source file of the module that defines the task. */
    method CallStart(source: Value)
      modifies this
      ensures frames == old(frames) + [[source]]
    {
      frames := frames + [[source]];
    }

    /** `call_finish`: pop the top frame, add it to the caller's frame, and
        return it. */
    method CallFinish() returns (deps: seq<Value>)
      requires |frames| > 0
      modifies this
      ensures deps == Top(old(frames))
      ensures frames == MergeDown(old(frames))
    {
      deps := frames[|frames| - 1];
      frames := frames[..|frames| - 1];
      if |frames| > 0 {
        frames := AppendTop(frames, deps);
      }
    }

    /** `add_dep`. */
    method AddDep(d: Value)
      requires |frames| > 0
      modifies this
      ensures frames == AppendTop(old(frames), [d])
    {
      frames := AppendTop(frames, [d]);
    }

    /** `add_deps`. */
    method AddDeps(ds: seq<Value>)
      requires |frames| > 0
      modifies this
      ensures frames == AppendTop(old(frames), ds)
    {
      frames := AppendTop(frames, ds);
    }

    /** `add_deps_if_in_memoize`: `add_deps` inside a task, nothing outside. */
    method AddDepsIfInMemoize(ds: seq<Value>)
      modifies this
      ensures |old(frames)| == 0 ==> frames == old(frames)
      ensures |old(frames)| > 0 ==> frames == AppendTop(old(frames), ds)
    {
      if |frames| > 0 {
        AddDeps(ds);
      }
    }
  }
}
