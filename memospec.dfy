/**
 * The memoization protocol as functions of the build state: how a call is
 * keyed, where its two records live, what a lookup finds, and what running
 * a task changes. The engine classes in memo.dfy and mergingmemo.dfy are
 * proved to follow these functions step for step; the properties the
 * protocol promises (a hit runs nothing, a run is remembered) are proved
 * here about the functions.
 *
 * Both persisted stores (`.mem/deps` and `.mem/results`) are maps from a
 * shard path to a record. Pickling is not modelled: a record holds the value
 * that was written, or is unreadable.
 */
module MemoSpec {
  import opened Paths
  import opened Hashing
  import opened Nodes

  /** A record file: what `pickle.load` returns, or bytes it cannot load. */
  datatype Record<T> = Readable(value: T) | Garbled

  /** The engine's fixed parameters. */
  datatype Env = Env(
    sha1: string -> string,       // hexdigest of the SHA-1 of a string
    pickle: Value -> string,      // pickle.dumps(v, 2)
    depsDir: string,              // <root>/.mem/deps
    resultsDir: string,           // <root>/.mem/results
    blobDir: string,              // <root>/.mem/blob
    newFileMode: nat)             // the mode of a file created by open(p, "wb")

  /** Everything the protocol reads and writes. */
  datatype State = State(
    fs: FileSystem,
    memo: HashMemo,                               // File._hash_cache
    deps: map<string, Record<seq<Value>>>,        // deps records by path
    results: map<string, Record<Value>>,          // result records by path
    failed: bool)                                 // mem.failed

  /** What running a task body does: the value it returns, the dependencies
      it declares into its frame, the file system it leaves, the hashes its
      `File` constructions record, the deps and result records written by
      the memoized calls it makes itself, and whether it called `fail`. */
  datatype TaskRun = TaskRun(result: Value, deps: seq<Value>, fs: FileSystem, hashed: HashMemo,
                             depsWritten: map<string, Record<seq<Value>>>,
                             resultsWritten: map<string, Record<Value>>,
                             failed: bool)

  /** A memoized function: its `__name__`, its `__module__`, and its body as
      a function of the arguments and the file system. */
  datatype Task = Task(name: string, moduleName: string, body: (seq<Value>, seq<Entry>, FileSystem) -> TaskRun)

  datatype Error =
    | Unreadable(path: string)   // pickle.load raised something other than IOError
    | StoreFailed                // store() raised IOError after the body ran

  /** How a call ends: a value, the process exiting, or an exception. */
  datatype Outcome = Returned(result: Value) | Exit | Raised(error: Error)

  /** The state after a call, how it ended, and whether the body ran. */
  datatype Step = Step(st: State, out: Outcome, ran: bool)

  /** The file hash `gh` sees: `File(p).get_hash()`. */
  function FileHashes(env: Env, fs: FileSystem, memo: HashMemo): string -> string {
    p => CachedHash(env.sha1, fs, memo, p)
  }

  /** The values hashed into the call key: name, module, args, kwargs. */
  function CallValues(t: Task, args: seq<Value>, kwargs: seq<Entry>): seq<Value> {
    [Opaque(t.name), Opaque(t.moduleName), Iterable(args), Dict(kwargs)]
  }

  /** The values hashed into the result key: the call key and the deps. */
  function KeyValues(tchash: string, deps: seq<Value>): seq<Value> {
    [Opaque(tchash), Iterable(deps)]
  }

  /** The paths whose hash `get_hash(*values)` asks for. */
  function HashedPaths(variant: Variant, values: seq<Value>): seq<string> {
    FilePaths(variant, Iterable(values))
  }

  /** `get_hash(*values)` with the memo of the given state. */
  function KeyOf(variant: Variant, env: Env, fs: FileSystem, memo: HashMemo, values: seq<Value>): string {
    GetHash(variant, env.sha1, values, FileHashes(env, fs, memo), env.pickle)
  }

  /** `_deps_path(tchash)`. */
  function DepsPath(env: Env, tchash: string): string {
    Shard(env.depsDir, tchash)
  }

  /** `_results_path(rhash)`. */
  function ResultsPath(env: Env, rhash: string): string {
    Shard(env.resultsDir, rhash)
  }

  /** Every path in `paths` has an entry in the memo. */
  ghost predicate Pinned(memo: HashMemo, paths: seq<string>) {
    forall p :: p in paths ==> p in memo
  }

  /** A key computed once its paths are in the memo is computed again the
      same way later, whatever the file system has become, as long as the
      memo has only gained entries. */
  lemma KeyStable(variant: Variant, env: Env, values: seq<Value>,
                  fs1: FileSystem, memo1: HashMemo, fs2: FileSystem, memo2: HashMemo)
    requires Pinned(memo1, HashedPaths(variant, values))
    requires Extends(memo2, memo1)
    ensures KeyOf(variant, env, fs1, memo1, values) == KeyOf(variant, env, fs2, memo2, values)
  {
    var fh1 := FileHashes(env, fs1, memo1);
    var fh2 := FileHashes(env, fs2, memo2);
    forall p | p in HashedPaths(variant, values) ensures fh1(p) == fh2(p) {
      MemoPinsHashes(env.sha1, fs1, memo1, fs2, memo2, [p]);
    }
    EncodeDependsOnlyOnFiles(variant, Iterable(values), fh1, fh2, env.pickle);
  }

  /** `_run_task(taskf, args, kwargs, tchash)` with the given first entries
      of the task's frame (none in mem_/__init__.py; the task's source node
      in mem/_mem.py): run the body, which may itself call memoized tasks
      and so write their records, exit if the build has failed,
      otherwise store every node of the result, then write the deps record
      under the call key and the result record under the key of the call
      key and the deps. */
  function RunStep(variant: Variant, env: Env, st: State, t: Task, args: seq<Value>, kwargs: seq<Entry>,
                   tchash: string, seed: seq<Value>): Step
  {
    var run := t.body(args, kwargs, st.fs);
    var st1 := st.(fs := run.fs, memo := run.hashed + st.memo,
                   deps := st.deps + run.depsWritten, results := st.results + run.resultsWritten);
    if st.failed || run.failed then
      Step(st1.(failed := true), Exit, true)
    else
      PersistStep(variant, env, st1, tchash, seed + run.deps, run.result)
  }

  /** The second half of `_run_task`, once the body has returned and the
      build has not failed: store every node of the result, then write the
      deps record and the result record. */
  function PersistStep(variant: Variant, env: Env, st: State, tchash: string, deps: seq<Value>, result: Value): Step
  {
    var (fs2, ok) := StoreAllEffect(env.blobDir, st.fs, Artifacts(result));
    if !ok then
      Step(st.(fs := fs2), Raised(StoreFailed), true)
    else
      var memo2 := Warm(env.sha1, fs2, st.memo, HashedPaths(variant, KeyValues(tchash, deps)));
      var rpath := ResultsPath(env, KeyOf(variant, env, fs2, memo2, KeyValues(tchash, deps)));
      Step(State(fs2, memo2, st.deps[DepsPath(env, tchash) := Readable(deps)],
                 st.results[rpath := Readable(result)], st.failed),
           Returned(result), true)
  }

  /** What the lookup in `memoize` finds. */
  datatype Found =
    | Hit(deps: seq<Value>, result: Value)
    | NoDeps                 // no deps record: IOError on the first open
    | NoResult               // no result record: IOError on the second open
    | Corrupt(path: string)  // a record that does not load

  /** The lookup, with the memo it leaves and the call key it used. */
  datatype Probe = Probe(memo: HashMemo, tchash: string, found: Found)

  /** The two reads of `memoize` (mem_/__init__.py): the deps record at the
      call key, then the result record at the key of (call key, deps). */
  function Lookup(env: Env, st: State, t: Task, args: seq<Value>, kwargs: seq<Entry>): Probe
  {
    var memo1 := Warm(env.sha1, st.fs, st.memo, HashedPaths(UnderscorePackage, CallValues(t, args, kwargs)));
    var tchash := KeyOf(UnderscorePackage, env, st.fs, memo1, CallValues(t, args, kwargs));
    var dpath := DepsPath(env, tchash);
    if dpath !in st.deps then Probe(memo1, tchash, NoDeps)
    else if st.deps[dpath].Garbled? then Probe(memo1, tchash, Corrupt(dpath))
    else
      var deps := st.deps[dpath].value;
      var memo2 := Warm(env.sha1, st.fs, memo1, HashedPaths(UnderscorePackage, KeyValues(tchash, deps)));
      var rpath := ResultsPath(env, KeyOf(UnderscorePackage, env, st.fs, memo2, KeyValues(tchash, deps)));
      if rpath !in st.results then Probe(memo2, tchash, NoResult)
      else if st.results[rpath].Garbled? then Probe(memo2, tchash, Corrupt(rpath))
      else Probe(memo2, tchash, Hit(deps, st.results[rpath].value))
  }

  /** `memoize(taskf)(*args, **kwargs)` (mem_/__init__.py): on a hit,
      restore the result's nodes and return it; an IOError during the reads
      or the restore falls back to running the task; a record that does not
      load propagates its error. */
  function MemoizeStep(env: Env, st: State, t: Task, args: seq<Value>, kwargs: seq<Entry>): Step
  {
    var probe := Lookup(env, st, t, args, kwargs);
    AnswerStep(env, st.(memo := probe.memo), t, args, kwargs, probe.tchash, probe.found)
  }

  /** What `memoize` does once the lookup under the call key tchash has
      found what it found. */
  function AnswerStep(env: Env, st: State, t: Task, args: seq<Value>, kwargs: seq<Entry>,
                      tchash: string, found: Found): Step
  {
    match found
    case NoDeps => RunStep(UnderscorePackage, env, st, t, args, kwargs, tchash, [])
    case NoResult => RunStep(UnderscorePackage, env, st, t, args, kwargs, tchash, [])
    case Corrupt(p) => Step(st, Raised(Unreadable(p)), false)
    case Hit(deps, result) =>
      var e := RestoreAllEffect(env.sha1, env.blobDir, env.newFileMode, st.fs, st.memo, Artifacts(result));
      if e.ok then Step(st.(fs := e.fs, memo := e.memo), Returned(result), false)
      else RunStep(UnderscorePackage, env, st.(fs := e.fs, memo := e.memo), t, args, kwargs, tchash, [])
  }

  /** The call key depends on the name, module, arguments and the hashes of
      the files among them, and on nothing else. */
  lemma CallKeyDeterministic(env: Env, st1: State, st2: State, t: Task, args: seq<Value>, kwargs: seq<Entry>)
    requires Pinned(st1.memo, HashedPaths(UnderscorePackage, CallValues(t, args, kwargs)))
    requires Extends(st2.memo, st1.memo)
    ensures Lookup(env, st1, t, args, kwargs).tchash == Lookup(env, st2, t, args, kwargs).tchash
  {
    var paths := HashedPaths(UnderscorePackage, CallValues(t, args, kwargs));
    var m1 := Warm(env.sha1, st1.fs, st1.memo, paths);
    var m2 := Warm(env.sha1, st2.fs, st2.memo, paths);
    KeyStable(UnderscorePackage, env, CallValues(t, args, kwargs), st1.fs, m1, st2.fs, m2);
  }

  /** A hit whose restore succeeds returns the stored result without
      running the body, and writes no record. */
  lemma HitRunsNothing(env: Env, st: State, t: Task, args: seq<Value>, kwargs: seq<Entry>)
    requires Lookup(env, st, t, args, kwargs).found.Hit?
    requires var probe := Lookup(env, st, t, args, kwargs);
      RestoreAllEffect(env.sha1, env.blobDir, env.newFileMode, st.fs, probe.memo, Artifacts(probe.found.result)).ok
    ensures var s := MemoizeStep(env, st, t, args, kwargs);
      && !s.ran
      && s.out == Returned(Lookup(env, st, t, args, kwargs).found.result)
      && s.st.deps == st.deps && s.st.results == st.results
  {
  }

  /** Only a missing record sends a call to the body; a record that does
      not load ends the call with its error, and no record is written. */
  lemma CorruptRecordRaises(env: Env, st: State, t: Task, args: seq<Value>, kwargs: seq<Entry>)
    requires Lookup(env, st, t, args, kwargs).found.Corrupt?
    ensures var s := MemoizeStep(env, st, t, args, kwargs);
      && !s.ran && s.out == Raised(Unreadable(Lookup(env, st, t, args, kwargs).found.path))
      && s.st.deps == st.deps && s.st.results == st.results && s.st.fs == st.fs
  {
  }

  /** If the build has failed when the body returns, the process exits:
      no blob is stored and no record written beyond what the body itself
      did, through its own memoized calls. */
  lemma FailedRunPersistsNothing(variant: Variant, env: Env, st: State, t: Task, args: seq<Value>,
                                 kwargs: seq<Entry>, tchash: string, seed: seq<Value>)
    requires st.failed || t.body(args, kwargs, st.fs).failed
    ensures var s := RunStep(variant, env, st, t, args, kwargs, tchash, seed);
      && s.out == Exit && s.st.failed
      && s.st.fs == t.body(args, kwargs, st.fs).fs
      && s.st.deps == st.deps + t.body(args, kwargs, st.fs).depsWritten
      && s.st.results == st.results + t.body(args, kwargs, st.fs).resultsWritten
  {
  }

  /** A run that returns has stored every node of its result, written the
      deps record (the frame: seed, then what the body declared) at the
      shard of the call key, and the result record at the shard of the key
      of (call key, deps), over the records the body's own memoized calls
      wrote; no other record changes. */
  lemma RunPersists(variant: Variant, env: Env, st: State, t: Task, args: seq<Value>,
                    kwargs: seq<Entry>, tchash: string, seed: seq<Value>)
    requires RunStep(variant, env, st, t, args, kwargs, tchash, seed).out.Returned?
    ensures var run := t.body(args, kwargs, st.fs);
      var s := RunStep(variant, env, st, t, args, kwargs, tchash, seed);
      var deps := seed + run.deps;
      && s.out.result == run.result
      && (forall f :: f in Artifacts(run.result) ==> StorePath(env.blobDir, f.hash) in s.st.fs)
      && s.st.deps == (st.deps + run.depsWritten)[DepsPath(env, tchash) := Readable(deps)]
      && s.st.results == (st.results + run.resultsWritten)
                           [ResultsPath(env, KeyOf(variant, env, s.st.fs, s.st.memo, KeyValues(tchash, deps)))
                            := Readable(run.result)]
      && Pinned(s.st.memo, HashedPaths(variant, KeyValues(tchash, deps)))
  {
    var run := t.body(args, kwargs, st.fs);
    StoreAllStoresEvery(env.blobDir, run.fs, Artifacts(run.result));
  }

  /** The facts a lookup needs to hit: the deps record sits at the call key,
      and the result record at a key computed from memo entries the current
      memo still holds. */
  lemma {:induction false} LookupHits(env: Env, st: State, t: Task, args: seq<Value>, kwargs: seq<Entry>,
                                     fsC: FileSystem, memoC: HashMemo, deps: seq<Value>,
                                     fsK: FileSystem, memoK: HashMemo, result: Value)
    requires Pinned(memoC, HashedPaths(UnderscorePackage, CallValues(t, args, kwargs)))
    requires Extends(st.memo, memoC)
    requires var tchash := KeyOf(UnderscorePackage, env, fsC, memoC, CallValues(t, args, kwargs));
      && DepsPath(env, tchash) in st.deps && st.deps[DepsPath(env, tchash)] == Readable(deps)
      && Pinned(memoK, HashedPaths(UnderscorePackage, KeyValues(tchash, deps)))
      && Extends(st.memo, memoK)
      && ResultsPath(env, KeyOf(UnderscorePackage, env, fsK, memoK, KeyValues(tchash, deps))) in st.results
      && st.results[ResultsPath(env, KeyOf(UnderscorePackage, env, fsK, memoK, KeyValues(tchash, deps)))]
           == Readable(result)
    ensures var probe := Lookup(env, st, t, args, kwargs);
      && probe.found == Hit(deps, result)
      && probe.tchash == KeyOf(UnderscorePackage, env, fsC, memoC, CallValues(t, args, kwargs))
      && Extends(probe.memo, st.memo)
  {
    var callValues := CallValues(t, args, kwargs);
    var tchash := KeyOf(UnderscorePackage, env, fsC, memoC, callValues);
    var memo1 := Warm(env.sha1, st.fs, st.memo, HashedPaths(UnderscorePackage, callValues));
    KeyStable(UnderscorePackage, env, callValues, fsC, memoC, st.fs, memo1);
    var memo2 := Warm(env.sha1, st.fs, memo1, HashedPaths(UnderscorePackage, KeyValues(tchash, deps)));
    KeyStable(UnderscorePackage, env, KeyValues(tchash, deps), fsK, memoK, st.fs, memo2);
  }

  /** Restorability survives the memo gaining entries. */
  lemma RestorableUnderExtends(blobDir: string, fs: FileSystem, memo1: HashMemo, memo2: HashMemo, files: seq<File>)
    requires Extends(memo2, memo1)
    requires forall f :: f in files ==> Restorable(blobDir, fs, memo1, f)
    ensures forall f :: f in files ==> Restorable(blobDir, fs, memo2, f)
  {
  }

  /** The state a first call leaves remembers it: the records a second
      lookup will read, and nodes it can restore. */
  ghost predicate Remembers(env: Env, st: State, t: Task, args: seq<Value>, kwargs: seq<Entry>,
                            fsC: FileSystem, memoC: HashMemo, deps: seq<Value>,
                            fsK: FileSystem, memoK: HashMemo, result: Value)
  {
    var tchash := KeyOf(UnderscorePackage, env, fsC, memoC, CallValues(t, args, kwargs));
    var rpath := ResultsPath(env, KeyOf(UnderscorePackage, env, fsK, memoK, KeyValues(tchash, deps)));
    && Pinned(memoC, HashedPaths(UnderscorePackage, CallValues(t, args, kwargs)))
    && Extends(st.memo, memoC)
    && DepsPath(env, tchash) in st.deps && st.deps[DepsPath(env, tchash)] == Readable(deps)
    && Pinned(memoK, HashedPaths(UnderscorePackage, KeyValues(tchash, deps)))
    && Extends(st.memo, memoK)
    && rpath in st.results && st.results[rpath] == Readable(result)
    && (forall f :: f in Artifacts(result) ==> Restorable(env.blobDir, st.fs, st.memo, f))
  }

  /** A state that remembers a call answers the call again from its records,
      without running the body. */
  lemma {:induction false} RememberedCallHits(env: Env, st: State, t: Task, args: seq<Value>, kwargs: seq<Entry>,
                                             fsC: FileSystem, memoC: HashMemo, deps: seq<Value>,
                                             fsK: FileSystem, memoK: HashMemo, result: Value)
    requires Remembers(env, st, t, args, kwargs, fsC, memoC, deps, fsK, memoK, result)
    requires BlobsApart(env.blobDir, Artifacts(result))
    ensures var s := MemoizeStep(env, st, t, args, kwargs);
      s.out == Returned(result) && !s.ran && s.st.deps == st.deps && s.st.results == st.results
  {
    LookupHits(env, st, t, args, kwargs, fsC, memoC, deps, fsK, memoK, result);
    var probe := Lookup(env, st, t, args, kwargs);
    RestorableUnderExtends(env.blobDir, st.fs, st.memo, probe.memo, Artifacts(result));
    RestoreAllSucceeds(env.sha1, env.blobDir, env.newFileMode, st.fs, probe.memo, Artifacts(result));
  }

  /** A run that returns leaves a state that remembers the call, provided
      the memo it started from held the call key's paths. */
  lemma {:induction false} RunRemembers(env: Env, st: State, t: Task, args: seq<Value>, kwargs: seq<Entry>,
                                       fsC: FileSystem, memoC: HashMemo)
    requires Pinned(memoC, HashedPaths(UnderscorePackage, CallValues(t, args, kwargs)))
    requires Extends(st.memo, memoC)
    requires var tchash := KeyOf(UnderscorePackage, env, fsC, memoC, CallValues(t, args, kwargs));
      RunStep(UnderscorePackage, env, st, t, args, kwargs, tchash, []).out.Returned?
    ensures var tchash := KeyOf(UnderscorePackage, env, fsC, memoC, CallValues(t, args, kwargs));
      var s := RunStep(UnderscorePackage, env, st, t, args, kwargs, tchash, []);
      var run := t.body(args, kwargs, st.fs);
      Remembers(env, s.st, t, args, kwargs, fsC, memoC, [] + run.deps, s.st.fs, s.st.memo, run.result)
  {
    var tchash := KeyOf(UnderscorePackage, env, fsC, memoC, CallValues(t, args, kwargs));
    var run := t.body(args, kwargs, st.fs);
    var s := RunStep(UnderscorePackage, env, st, t, args, kwargs, tchash, []);
    RunPersists(UnderscorePackage, env, st, t, args, kwargs, tchash, []);
    var memo1 := run.hashed + st.memo;
    assert Extends(memo1, st.memo);
    StoredIsRestorable(env.blobDir, run.fs, s.st.memo, Artifacts(run.result));
  }

  /** A call answered by running the body is answered from the records
      the next time. */
  lemma {:induction false} RunThenHit(env: Env, st: State, t: Task, args: seq<Value>, kwargs: seq<Entry>,
                                     fsC: FileSystem, memoC: HashMemo)
    requires Pinned(memoC, HashedPaths(UnderscorePackage, CallValues(t, args, kwargs)))
    requires Extends(st.memo, memoC)
    requires var tchash := KeyOf(UnderscorePackage, env, fsC, memoC, CallValues(t, args, kwargs));
      var s := RunStep(UnderscorePackage, env, st, t, args, kwargs, tchash, []);
      s.out.Returned? && BlobsApart(env.blobDir, Artifacts(s.out.result))
    ensures var tchash := KeyOf(UnderscorePackage, env, fsC, memoC, CallValues(t, args, kwargs));
      var s1 := RunStep(UnderscorePackage, env, st, t, args, kwargs, tchash, []);
      var s2 := MemoizeStep(env, s1.st, t, args, kwargs);
      s2.out == s1.out && !s2.ran && s2.st.deps == s1.st.deps && s2.st.results == s1.st.results
  {
    var tchash := KeyOf(UnderscorePackage, env, fsC, memoC, CallValues(t, args, kwargs));
    var s1 := RunStep(UnderscorePackage, env, st, t, args, kwargs, tchash, []);
    var run := t.body(args, kwargs, st.fs);
    RunRemembers(env, st, t, args, kwargs, fsC, memoC);
    RememberedCallHits(env, s1.st, t, args, kwargs, fsC, memoC, [] + run.deps, s1.st.fs, s1.st.memo, run.result);
  }

  /** The lookup's call key is the key of the call values under the memo
      that holds their paths, and the lookup only adds to that memo. */
  lemma LookupKey(env: Env, st: State, t: Task, args: seq<Value>, kwargs: seq<Entry>)
    ensures var memoC := Warm(env.sha1, st.fs, st.memo, HashedPaths(UnderscorePackage, CallValues(t, args, kwargs)));
      var probe := Lookup(env, st, t, args, kwargs);
      && Pinned(memoC, HashedPaths(UnderscorePackage, CallValues(t, args, kwargs)))
      && probe.tchash == KeyOf(UnderscorePackage, env, st.fs, memoC, CallValues(t, args, kwargs))
      && Extends(probe.memo, memoC)
  {
  }

  /** Round trip: once a call has returned, the same call made again reads
      back the same result from the records, and its body does not run. */
  lemma {:induction false} RoundTrip(env: Env, st: State, t: Task, args: seq<Value>, kwargs: seq<Entry>)
    requires MemoizeStep(env, st, t, args, kwargs).out.Returned?
    requires BlobsApart(env.blobDir, Artifacts(MemoizeStep(env, st, t, args, kwargs).out.result))
    ensures var s1 := MemoizeStep(env, st, t, args, kwargs);
      var s2 := MemoizeStep(env, s1.st, t, args, kwargs);
      s2.out == s1.out && !s2.ran && s2.st.deps == s1.st.deps && s2.st.results == s1.st.results
  {
    var probe := Lookup(env, st, t, args, kwargs);
    if probe.found.Hit? {
      HitRoundTrip(env, st, t, args, kwargs);
    } else {
      MissRoundTrip(env, st, t, args, kwargs);
    }
  }

  /** The round trip of a call that ran its body: the lookup missed. */
  lemma {:induction false} MissRoundTrip(env: Env, st: State, t: Task, args: seq<Value>, kwargs: seq<Entry>)
    requires Lookup(env, st, t, args, kwargs).found.NoDeps? || Lookup(env, st, t, args, kwargs).found.NoResult?
    requires MemoizeStep(env, st, t, args, kwargs).out.Returned?
    requires BlobsApart(env.blobDir, Artifacts(MemoizeStep(env, st, t, args, kwargs).out.result))
    ensures var s1 := MemoizeStep(env, st, t, args, kwargs);
      var s2 := MemoizeStep(env, s1.st, t, args, kwargs);
      s2.out == s1.out && !s2.ran && s2.st.deps == s1.st.deps && s2.st.results == s1.st.results
  {
    var memoC := Warm(env.sha1, st.fs, st.memo, HashedPaths(UnderscorePackage, CallValues(t, args, kwargs)));
    var probe := Lookup(env, st, t, args, kwargs);
    LookupKey(env, st, t, args, kwargs);
    RunThenHit(env, st.(memo := probe.memo), t, args, kwargs, st.fs, memoC);
  }

  /** The round trip of a call answered from the records: the lookup hit,
      and the result was restored, or, when the restore failed, the body
      ran. */
  lemma {:induction false} HitRoundTrip(env: Env, st: State, t: Task, args: seq<Value>, kwargs: seq<Entry>)
    requires Lookup(env, st, t, args, kwargs).found.Hit?
    requires MemoizeStep(env, st, t, args, kwargs).out.Returned?
    requires BlobsApart(env.blobDir, Artifacts(MemoizeStep(env, st, t, args, kwargs).out.result))
    ensures var s1 := MemoizeStep(env, st, t, args, kwargs);
      var s2 := MemoizeStep(env, s1.st, t, args, kwargs);
      s2.out == s1.out && !s2.ran && s2.st.deps == s1.st.deps && s2.st.results == s1.st.results
  {
    var memoC := Warm(env.sha1, st.fs, st.memo, HashedPaths(UnderscorePackage, CallValues(t, args, kwargs)));
    var probe := Lookup(env, st, t, args, kwargs);
    LookupKey(env, st, t, args, kwargs);
    var result := probe.found.result;
    var e := RestoreAllEffect(env.sha1, env.blobDir, env.newFileMode, st.fs, probe.memo, Artifacts(result));
    RestoreAllExtends(env.sha1, env.blobDir, env.newFileMode, st.fs, probe.memo, Artifacts(result));
    if e.ok {
      RestoreAllLeavesRestorable(env.sha1, env.blobDir, env.newFileMode, st.fs, probe.memo, Artifacts(result));
      RememberedCallHits(env, st.(fs := e.fs, memo := e.memo), t, args, kwargs, st.fs, memoC,
                         probe.found.deps, st.fs, probe.memo, result);
    } else {
      RunThenHit(env, st.(fs := e.fs, memo := e.memo), t, args, kwargs, st.fs, memoC);
    }
  }
}
