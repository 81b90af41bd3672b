# mem: the memoizing build engine, modelled in Dafny

mem is a Python build tool. A build is written as ordinary Python functions
("tasks") decorated with `memoize`. Calling a task hashes its name, its module
and its arguments into a call key. The engine then looks in two on-disk stores:

- the deps store, under the call key, for the list of dependencies the task
  declared last time;
- the results store, under the hash of the call key and those
  dependencies, for the value it returned.

On a hit, every file node in the result is restored from a content-addressed
blob store and the result is returned without running the task. On a miss,
the task body runs with a fresh frame on the per-thread dependency stack.
Then every file node of the result is stored as a blob, and both records are
written. The repository has two generations of the engine, `mem` and `mem_`.
They differ in how the dependency stack treats a nested call and in the order
in which the structural hash tries its cases. Around the engine sit:

- the `File` node, with its per-path hash memo and its blob store;
- helpers (`flatten`, `with_env`, `convert_cmd`, `search_file`,
  `get_build_dir`);
- the rules for gcc, for static libraries (`ar`), and the two LaTeX
  builders.

The project models these pieces:

| file | module | models |
|---|---|---|
| paths.dfy | Paths | the `os.path` functions and Python slicing the core uses, and the two-level shard path `dir/h[:2]/h[2:]` |
| hashing.dfy | Hashing | `gh`, the tag-byte pre-image of `get_hash`, for both packages; SHA-1, `pickle.dumps` and the per-file hash are parameters |
| nodes.dfy | Nodes | `File` of mem_/nodes.py: construction, the hash memo, the 64 KiB hashing loop, `store`, `restore`, pickling; a `Context` class holds the file system, the memo and the failed flag |
| stacks.dfy | Stacks | the two `DepsStack` classes, as classes over a `seq<seq<Value>>` |
| memospec.dfy | MemoSpec | the memoization protocol as functions of the build state, and what it promises: a hit runs nothing, and a run is remembered (round trip) |
| memo.dfy | Memo | `Mem.get_hash`, `memoize` and `_run_task` of mem_/__init__.py, as a class proved to follow MemoSpec |
| mergingmemo.dfy | MergingMemo | `Mem.get_hash` and `_run_task` of mem/_mem.py, with the merging stack |
| util.dfy | Util | `flatten` (the in-place splice loop), `with_env`, `convert_cmd`, `search_file` and the string branch of `get_build_dir` |
| texscan.dfy | TexScan | the three regular expressions of the LaTeX builders, written out as Python's backtracking matcher runs them |
| texlines.dfy | TexLines | how `findall` over several lines relates to `findall` over each: the scan of a text split at a line break |
| depsearch.dfy | DepSearch | the invariants of the recursive dependency search the two builders share |
| pdflatex.dfy | PdfLatex | `PDFLatexBuilder` of mem/tasks/pdflatex.py |
| pdflatexu.dfy | PdfLatexUnderscore | `PDFLatexBuilder` of mem_/tasks/pdflatex.py |
| gcc.dfy | Gcc | the C rules of mem/tasks/gcc.py |
| ar.dfy | Ar | `ar` and `t_ar` of mem_/tasks/ar.py |
| wrappers.dfy | Wrappers | `Option` and `Result` |

The file system is a map from path to file data. The two record stores are
maps from shard path to a record, which holds either the value written or
bytes that do not load. A task body is a function from its arguments and the
file system to what it returns, what it declares as dependencies, the files
it changes, the records written by the memoized calls it makes itself, and
whether it called `fail`. Calling `fail`, which makes the
process exit, is the outcome `Exit`.

## Model

| member | source | states |
|---|---|---|
| Paths.Take | mem_/tasks/ar.py:48 | `s[0:n]`: the first n characters, or all of s when it is shorter; always a prefix of s |
| Paths.TakeLast | mem_/tasks/ar.py:46 | `s[-n:]`: the last n characters, or all of s; s is what precedes it followed by it |
| Paths.ContainsIff | mem/tasks/pdflatex.py:49 | `find(needle) != -1` holds exactly when some suffix of the text starts with the needle |
| Paths.Join | mem/tasks/gcc.py:182 | `os.path.join`: an absolute second part replaces the first; otherwise it is appended after a separating `/` |
| Paths.Dirname | mem/tasks/gcc.py:35 | `os.path.dirname` is a prefix of the path |
| Paths.Basename | mem/tasks/gcc.py:197 | `os.path.basename` holds no `/` |
| Paths.SplitExt | mem/tasks/gcc.py:183 | `os.path.splitext`: the two parts put together give the path back, and the extension is empty or a dot with no `/` after it |
| Paths.SplitExtAppend | mem/tasks/pdflatex.py:116 | appending an extension to a stem whose last component is not empty or all dots gives back that stem and that extension |
| Paths.Lower | mem/tasks/pdflatex.py:104 | `str.lower()` keeps the length and lowers each ASCII letter in place |
| Paths.Decimal | mem_/nodes.py:128-129 | `%d` of a number is a non-empty string of digits, with no leading zero unless it is `0`, whose value is that number |
| Paths.DecimalInjective | mem_/nodes.py:128-129 | two numbers with the same `%d` spelling are equal, so files of different sizes or modes get different blob headers |
| Paths.ShardForm | mem_/__init__.py:153-157 | the record path of a 40-digit hash is `dir/` + its first two digits + `/` + the other 38 |
| Paths.ShardInjective | mem/_mem.py:227-231 | two different hashes never share a record path, so no record overwrites another hash's record |
| Hashing.EncodeDependsOnlyOnFiles | mem_/__init__.py:136-150 | the pre-image depends on the file system only through the hashes of the files `gh` visits: two file-hash functions that agree on those give the same pre-image |
| Hashing.JoinAllDependsOnlyOnFiles | mem_/__init__.py:145 | the same for the `"\0"`-joined elements of an iterable |
| Hashing.JoinEntriesDependsOnlyOnFiles | mem_/__init__.py:141-143 | the same for the `"\3"`-separated entries of a dict |
| Hashing.IterableFramed | mem/_mem.py:201-202 | the pre-image of a non-dict iterable starts and ends with the tag `"\1"` |
| Hashing.OneElementDiffers | mem/_mem.py:202 | a one-element list encodes to its element wrapped in `"\1"`, two characters longer, so never to the element's own encoding |
| Hashing.DelegationOrder | mem/_mem.py:193-202 | mem/_mem.py asks an iterable object with its own `get_hash` for that hash; mem_/__init__.py encodes its elements instead |
| Hashing.CodeRefTracksSource | mem/_mem.py:209-214 | a function or class encodes as `"\4" name "\0" module "\0"` + the hash of its module's file, so a change to that file changes the pre-image |
| Hashing.DictOrderMatters | mem/_mem.py:198-200 | a dict encodes in iteration order: for example, the dict `{"a": "a", "b": "b"}` iterated in the two orders gives two different pre-images |
| Nodes.Warm | mem_/nodes.py:112-118 | asking `get_hash()` of a list of paths adds exactly those paths to the memo, keeps every old entry, and changes no hash `get_hash()` reports |
| Nodes.MemoPinsHashes | mem_/nodes.py:112-118 | once a path is in the memo, its hash no longer changes whatever happens to the file, as long as the memo only gains entries |
| Nodes.ReadBlock | mem_/nodes.py:131 | `read(1 << 16)` returns at most 64 KiB, and returns nothing exactly at the end of the file |
| Nodes.BlocksReassemble | mem_/nodes.py:130-133 | the blocks `_compute_hash` reads put back together are the file's bytes; each holds 1 to 64 KiB and only the last may be short |
| Nodes.GetState | mem_/nodes.py:137-140 | a node pickles as exactly the keys `path` and `hash`, with its path and recorded hash |
| Nodes.SetState | mem_/nodes.py:142-145 | unpickling takes the path and hash as they are and computes no hash |
| Nodes.StateRoundTrip | mem_/nodes.py:137-145 | unpickling a pickled node gives the same node |
| Nodes.StoreIdempotent | mem_/nodes.py:105-110 | a second `store()` finds the blob and changes nothing |
| Nodes.StoreAllStoresEvery | mem_/__init__.py:195-202 | after storing a result without error, the blob of every node in it exists and no earlier file changed |
| Nodes.StoreAllIdempotent | mem_/__init__.py:195-202 | storing a stored result again changes nothing |
| Nodes.StoreAllNoOp | mem_/__init__.py:195-202 | when every blob exists, storing the result changes nothing and succeeds |
| Nodes.StoreAllStopsAtFailure | mem_/__init__.py:195-202 | once storing a node raises IOError, the nodes after it are not stored |
| Nodes.RestoreOutcome | mem_/nodes.py:89-103 | `restore()` leaves the file system untouched when the file is present with the recorded hash; otherwise the file becomes the blob, or stays empty when the blob is missing |
| Nodes.RestoreIdempotent | mem_/nodes.py:89-103 | restoring twice leaves the same files as restoring once |
| Nodes.RestoreFrame | mem_/nodes.py:89-103 | `restore()` writes the node's own path only, and the memo only gains entries |
| Nodes.RestoreSucceeds | mem_/nodes.py:89-103 | a node whose file is present with the recorded hash, or whose blob exists, restores without error and can be restored again |
| Nodes.RestoredIsRestorable | mem_/nodes.py:89-103 | after a successful restore the node can be restored again without error |
| Nodes.RestoreKeepsOthers | mem_/nodes.py:89-103 | restoring one node keeps another restorable unless it overwrites the other's blob |
| Nodes.RestoreAllKeeps | mem_/__init__.py:172-179 | restoring a result keeps nodes outside it restorable when none of its paths is their blob, and the memo only gains entries |
| Nodes.RestoreAllSucceeds | mem_/__init__.py:172-179 | restoring a result whose nodes are all restorable succeeds |
| Nodes.RestoreAllLeavesRestorable | mem_/__init__.py:172-179 | after a successful restore of a result, every node in it can be restored again |
| Nodes.RestoreLastLeavesRestorable | mem_/__init__.py:172-179 | restoring one more node keeps the earlier ones restorable and leaves it restorable |
| Nodes.RestoreAllExtends | mem_/__init__.py:172-179 | restoring a result only adds to the hash memo |
| Nodes.RestoreAllStopsAtFailure | mem_/__init__.py:172-183 | once a restore raises IOError, the nodes after it are not restored |
| Nodes.StoredIsRestorable | mem_/__init__.py:195-202 | after a result is stored, every node in it can be restored |
| Nodes.NotFoundIsNoDigest | mem_/nodes.py:121-124 | the `NOT FOUND` hash of a missing file never equals a present file's digest |
| Nodes.Context.constructor | mem_/nodes.py:40 | a fresh context has an empty hash memo and a build that has not failed |
| Nodes.Context.NewFile | mem_/nodes.py:42-52 | `File(file, filehash)`: exits if the build failed, raises NodeError when `join(cwd, file)` is missing, keeps a non-empty `filehash`, else takes `get_hash()` and records it in the memo |
| Nodes.Context.GetHash | mem_/nodes.py:112-118 | the memo entry when there is one, and the memo is then unchanged; otherwise the content hash, which is recorded |
| Nodes.Context.ComputeHash | mem_/nodes.py:120-135 | `NOT FOUND` for a missing file, else SHA-1 of `blob <size> <mode>\0` followed by the bytes |
| Nodes.Context.Feed | mem_/nodes.py:130-133 | the 64 KiB read loop feeds the digest exactly the file's bytes, in order |
| Nodes.Context.Store | mem_/nodes.py:105-110 | `store()` changes the file system exactly as StoreEffect says: nothing when the blob exists, else a copy there |
| Nodes.Context.Restore | mem_/nodes.py:89-93 | `restore()` follows RestoreEffect: rewrite when the file is missing or its hash differs |
| Nodes.Context.RewriteFromBlob | mem_/nodes.py:95-103 | `_restore()` truncates the file, then copies the blob and its mode, or raises IOError leaving the empty file |
| Nodes.Context.StoreResult | mem_/__init__.py:195-202 | `store(result)` stores every node of the result, in order, recursing through iterables |
| Nodes.Context.StoreAll | mem_/__init__.py:195-202 | the nodes are stored in order, stopping at the first IOError |
| Nodes.Context.RestoreResult | mem_/__init__.py:172-179 | `restore(result)` restores every node of the result, in order, recursing through iterables |
| Nodes.Context.RestoreAll | mem_/__init__.py:172-179 | the nodes are restored in order, stopping at the first IOError |
| Nodes.Context.WarmHashes | mem_/nodes.py:112-118 | asking `get_hash()` of each path in turn leaves the memo Warm describes |
| Stacks.MergeDown | mem/_mem.py:54-58 | `call_finish` of mem/_mem.py: one frame fewer, lower frames unchanged, and the new top is the old parent frame followed by the popped frame |
| Stacks.AppendTopShape | mem/_mem.py:60-64 | `add_dep`/`add_deps` touch the top frame only, which keeps its entries, in order, before the new ones |
| Stacks.AppendTopTwice | mem/_mem.py:63-64 | two `add_deps` in a row append their concatenation |
| Stacks.NestedCallIsolated | mem_/__init__.py:22-26 | in mem_/__init__.py a nested task's dependencies never reach its caller's frame; the nested call hands back exactly what it declared |
| Stacks.NestedCallMerged | mem/_mem.py:49-58 | in mem/_mem.py the caller's frame gains the nested task's source node and then everything it declared, in order |
| Stacks.OutermostCallLeavesEmpty | mem/_mem.py:54-58 | a finished outermost task leaves the stack empty, in both packages |
| Stacks.DepsStack.constructor | mem_/__init__.py:19-20 | the stack starts empty |
| Stacks.DepsStack.CallStart | mem_/__init__.py:22-23 | pushes one empty frame |
| Stacks.DepsStack.CallFinish | mem_/__init__.py:25-26 | pops and returns the top frame; lower frames are unchanged |
| Stacks.DepsStack.AddDep | mem_/__init__.py:28-29 | appends one dependency to the top frame |
| Stacks.DepsStack.AddDeps | mem_/__init__.py:31-32 | appends the dependencies, in order, to the top frame |
| Stacks.MergingDepsStack.constructor | mem/_mem.py:46-47 | the stack starts empty |
| Stacks.MergingDepsStack.CallStart | mem/_mem.py:49-52 | pushes one frame holding only the source node of the task's module |
| Stacks.MergingDepsStack.CallFinish | mem/_mem.py:54-58 | pops and returns the top frame and adds it to the end of the caller's frame |
| Stacks.MergingDepsStack.AddDep | mem/_mem.py:60-61 | appends one dependency to the top frame |
| Stacks.MergingDepsStack.AddDeps | mem/_mem.py:63-64 | appends the dependencies, in order, to the top frame |
| Stacks.MergingDepsStack.AddDepsIfInMemoize | mem/_mem.py:66-68 | `add_deps` inside a task; outside any task, nothing changes and nothing fails |
| MemoSpec.KeyStable | mem_/__init__.py:136-151 | a key computed once its files are in the hash memo is computed again the same, whatever the files become, as long as the memo only gains entries |
| MemoSpec.CallKeyDeterministic | mem_/__init__.py:161-162 | the call key depends only on name, module, arguments and the hashes of the files among them |
| MemoSpec.HitRunsNothing | mem_/__init__.py:168-181 | a hit whose restore succeeds returns the stored result, does not run the body, and writes no record |
| MemoSpec.CorruptRecordRaises | mem_/__init__.py:164-183 | a record that does not load ends the call with its error; the body does not run and no record is written |
| MemoSpec.FailedRunPersistsNothing | mem_/__init__.py:190-191 | if the build has failed when the body returns, the process exits: no blob is stored, and the records are those before the call plus those the body's own memoized calls wrote |
| MemoSpec.RunPersists | mem_/__init__.py:195-214 | a run that returns has stored every node of its result, and written the deps at the call key and the result at the key of (call key, deps), over the records the body's own memoized calls wrote; no other record changes |
| MemoSpec.LookupHits | mem_/__init__.py:163-170 | when the deps record sits at the call key and the result record at the key of (call key, deps), the lookup finds both |
| MemoSpec.RestorableUnderExtends | mem_/nodes.py:89-93 | a restorable node stays restorable when the memo gains entries |
| MemoSpec.RememberedCallHits | mem_/__init__.py:163-181 | a state holding a call's records and restorable nodes answers the call from them without running the body |
| MemoSpec.RunRemembers | mem_/__init__.py:187-214 | a run that returns leaves a state that holds its records and can restore its nodes |
| MemoSpec.RunThenHit | mem_/__init__.py:159-216 | a call answered by running the body is answered from the records the next time |
| MemoSpec.LookupKey | mem_/__init__.py:161-170 | the lookup uses the call key computed with the files' hashes in the memo, and only adds to the memo |
| MemoSpec.RoundTrip | mem_/__init__.py:159-216 | once a call has returned, the same call again returns the same result and does not run the body |
| MemoSpec.MissRoundTrip | mem_/__init__.py:182-216 | the round trip for a call whose lookup missed |
| MemoSpec.HitRoundTrip | mem_/__init__.py:168-181 | the round trip for a call answered from the records |
| Memo.Mem.constructor | mem_/__init__.py:36-49 | an engine starts with an empty stack, empty record stores and no body run |
| Memo.Mem.GetHash | mem_/__init__.py:136-151 | `get_hash(*values)` records every file it hashes in the memo and returns the key of the values under that memo |
| Memo.Mem.AddDep | mem_/__init__.py:130-131 | `add_dep` on the stack |
| Memo.Mem.AddDeps | mem_/__init__.py:133-134 | `add_deps` on the stack |
| Memo.Mem.Fail | mem_/__init__.py:103-121 | `fail()` marks the build failed and exits |
| Memo.Mem.Probe | mem_/__init__.py:161-170 | the two reads of `memoize` find what Lookup says |
| Memo.Mem.Memoize | mem_/__init__.py:159-185 | a memoized call whose body returns or exits changes the state as MemoizeStep says, runs the body at most once, and leaves the stack as it found it unless the process exits |
| Memo.Mem.Answer | mem_/__init__.py:171-183 | the rest of `memoize` follows AnswerStep: restore and return on a hit, run the task on a miss or a failed restore, raise on a bad record |
| Memo.Mem.RunTask | mem_/__init__.py:187-216 | `_run_task` with a body that returns or exits runs the body once and follows RunStep; the frame it pushed is gone unless the process exits |
| Memo.Mem.Persist | mem_/__init__.py:195-214 | stores the result's nodes, then writes the deps and result records, as PersistStep says |
| MergingMemo.Mem.constructor | mem/_mem.py:104-119 | an engine starts with an empty stack and empty record stores |
| MergingMemo.Mem.GetHash | mem/_mem.py:191-225 | `get_hash(*values)` with the mem/_mem.py encoding |
| MergingMemo.Mem.AddDep | mem/_mem.py:185-186 | `add_dep` on the stack |
| MergingMemo.Mem.AddDeps | mem/_mem.py:188-189 | `add_deps` on the stack |
| MergingMemo.Mem.Fail | mem/_mem.py:158-176 | `fail()` marks the build failed and exits |
| MergingMemo.Mem.RunTask | mem/_mem.py:233-262 | `_run_task` follows RunStep with the source node first in the deps; the caller's frame ends with the nested task's frame |
| MergingMemo.Mem.Persist | mem/_mem.py:241-260 | stores the result's nodes, then writes the deps and result records |
| Util.Leaves | mem_/util.py:79-85 | the leaves of a nested list contain no list or tuple |
| Util.LeavesAppend | mem_/util.py:73-87 | flattening keeps the left-to-right order of the leaves across a concatenation |
| Util.LeavesOfFlat | mem_/util.py:78-86 | a list with no nested list or tuple flattens to itself |
| Util.LeavesIdempotent | mem_/util.py:73-87 | flattening twice is flattening once |
| Util.EmptyNestedVanishes | mem_/util.py:80-83 | empty nested lists and tuples vanish |
| Util.Splice | mem_/util.py:85 | replacing a nested cell by its contents keeps the leaves |
| Util.Remove | mem_/util.py:80-83 | removing an empty cell keeps the leaves |
| Util.Flatten | mem_/util.py:73-87 | `flatten(l)` returns a list or tuple of the same kind holding exactly the leaves of l, in order |
| Util.WithEnv | mem_/util.py:127-141 | without `env` the keywords pass unchanged; with one, every declared key is present, a truthy keyword wins, then the env's value, then the default; undeclared keywords pass unchanged |
| Util.ConvertCmd | mem_/util.py:108-109 | same length, and each element is `str` of the argument at the same place |
| Util.ConvertCmdAppend | mem_/util.py:108-109 | converting a concatenation converts each part |
| Util.Split | mem_/util.py:117-118 | splitting on a separator gives at least one piece and no piece holds the separator |
| Util.SplitJoin | mem_/util.py:117-118 | joining the pieces with the separator gives the string back |
| Util.SearchFile | mem_/util.py:111-124 | the file name if it exists; else the first existing `join(dir, name)` in path order, none before it existing; else None, when none exists |
| Util.FirstUnder | mem_/util.py:120-124 | the loop over the directories returns the first existing join, or None when there is none |
| Util.BuildDirFromString | mem_/util.py:31-32 | a non-empty string `build_dir` is the build directory itself |
| TexScan.LineEnd | mem/tasks/pdflatex.py:27 | where `.*` stops: at or after its start, at a newline or the end of the text |
| TexScan.LineEndSkips | mem/tasks/pdflatex.py:27 | no newline lies between the start of `.*` and where it stops, so it stops at the first one |
| TexScan.SkipSpace | mem_/tasks/pdflatex.py:14 | where a greedy `\s*` stops: at or after its start, at a character that is not white space or the end of the text |
| TexScan.SkipSpaceSkips | mem_/tasks/pdflatex.py:14 | everything `\s*` passes over is white space, so it stops at the first other character |
| TexScan.CommentFreeEnd | mem/tasks/pdflatex.py:27 | where a greedy `[^%\r\n]*` stops: at or after its start, at a `%`, carriage return or newline, or the end of the text |
| TexScan.CommentFreeEndSkips | mem/tasks/pdflatex.py:27 | nothing `[^%\r\n]*` passes over is a `%`, carriage return or newline, so it stops at the first one |
| TexScan.DirectiveBrace | mem/tasks/pdflatex.py:27 | `\\(?:input\|include){` at k, in any case: the index of its brace |
| TexScan.FirstClose | mem/tasks/pdflatex.py:27 | lazy `(.*?)}` ends at a `}` of the line, at or after its start |
| TexScan.FirstCloseSkips | mem/tasks/pdflatex.py:27 | no `}` lies before the one lazy `(.*?)}` ends at, nor before the end of the line when it finds none: it is the first |
| TexScan.LastClose | mem_/tasks/pdflatex.py:14 | greedy `(.*)}` ends at a `}` of the line |
| TexScan.LastCloseBefore | mem_/tasks/pdflatex.py:14 | the backtracking of greedy `(.*)}` finds a `}` before the end of the line, or reports that there is none |
| TexScan.LastCloseBeforeSkips | mem_/tasks/pdflatex.py:14 | no `}` lies after the one the backtracking finds, nor anywhere when it finds none: it is the last |
| TexScan.LastHitWithin | mem/tasks/pdflatex.py:27 | backtracking a greedy prefix returns a match found at one of the positions tried; which one is stated by LastHitAt |
| TexScan.GraphicDirectiveAt | mem/tasks/pdflatex.py:30 | an includegraphics match ends after its backslash |
| TexScan.DirectiveAt | mem/tasks/pdflatex.py:27-32 | a match of MemLatex or MemGraphic starts at a backslash |
| TexScan.MatchAt | mem/tasks/pdflatex.py:27-32 | a match that starts at j ends after j |
| TexScan.SkipToLineStart | mem/tasks/pdflatex.py:27-28 | under `re.MULTILINE` no match starts inside a line |
| TexScan.OneLine | mem/tasks/pdflatex.py:63 | a one-line text yields the group of the match at its start, or nothing |
| TexScan.CommentHides | mem/tasks/pdflatex.py:27-32 | a `%` before any directive on the line hides the rest of the line from both patterns |
| TexScan.LastHitFrom | mem/tasks/pdflatex.py:27 | positions where nothing matches are passed over by the backtracking |
| TexScan.LastHitAt | mem/tasks/pdflatex.py:27 | the backtracking lands on the last position where the rest of the pattern matches |
| TexScan.LeadingTextHides | mem_/tasks/pdflatex.py:14-15 | text other than white space before the directive hides it |
| TexScan.LeadingAt | mem_/tasks/pdflatex.py:14-15 | a line of white space, a directive and a group finds that group, running to the last `}` of the line |
| TexScan.LeadingMatchIs | mem_/tasks/pdflatex.py:14 | the match of such a line ends just past its last `}` |
| TexScan.LastBackslash | mem/tasks/pdflatex.py:27-32 | on a line with no `%` before the directive and no backslash after it, the directive is the one found |
| TexScan.MatchIsLastDirective | mem/tasks/pdflatex.py:27 | the greedy comment-free prefix backtracks to the last directive of the line |
| TexScan.InputAt | mem/tasks/pdflatex.py:27-28 | a line with one `\input{…}` or `\include{…}` finds its argument, which ends at the first `}` |
| TexScan.GraphicAt | mem/tasks/pdflatex.py:29-31 | a line with one `\includegraphics{…}` finds its argument, which ends at the first `}` |
| TexScan.GraphicWithOptionsAt | mem/tasks/pdflatex.py:29-31 | with an option list in brackets, the options run to the last `]` of the line and the argument again ends at the first `}` after it |
| TexScan.GraphicDirectiveWithOptions | mem/tasks/pdflatex.py:30 | the includegraphics directive takes its option list when one is present and closes |
| TexLines.GroupsSplit | mem/tasks/pdflatex.py:27-32 | `findall` over a text with a line break after a gives the groups of a, then those of the rest, in document order: always for the input pattern; for includegraphics when the rest does not start with white space, `[` or `{`, across which its `\s*` would run; for mem_/tasks/pdflatex.py:14 when a does not end in white space, so that no match starts in a and runs into the rest |
| TexLines.FindAllCut | mem/tasks/pdflatex.py:27-32 | the scan over the whole text finds the groups of the text before the line break, then goes on after it |
| TexLines.FindAllShift | mem/tasks/pdflatex.py:27-32 | after a line break, the scan finds exactly the groups of the text that follows, as if it stood alone |
| DepSearch.ExploredStep | mem/tasks/pdflatex.py:98-101 | appending a file and searching its contents keeps every searched file listed, covered and found from the original text |
| DepSearch.ListedNext | mem/tasks/pdflatex.py:93-95 | after each step of an append loop every existing name seen so far is listed |
| DepSearch.ExtendsTrans | mem/tasks/pdflatex.py:93-101 | `_deps` only grows, without repetition, through appends of existing names, across any number of steps |
| DepSearch.AccountedStep | mem/tasks/pdflatex.py:98-101 | after a file is searched, every name added is a searched file or a graphic candidate of the text or of a searched file: the search adds nothing else |
| DepSearch.ExploredCloses | mem_/tasks/pdflatex.py:71-80 | a search from an empty `_deps` that searched every file it listed leaves `_deps` closed: every existing candidate of every listed file is listed |
| PdfLatex.LatexCandidatesShape | mem/tasks/pdflatex.py:64-67 | a name without an extension gives `.tex`, `.ltx`, `.latex` and then itself; one with an extension gives itself only |
| PdfLatex.GraphicCandidatesShape | mem/tasks/pdflatex.py:78-82 | a graphic without an extension gives itself with each of `.pdf .eps .png .jpg .tif .bmp`, in that order; one with an extension gives itself only |
| PdfLatex.ExpandAppend | mem/tasks/pdflatex.py:63-69 | candidates follow document order: two runs of matches give the first run's candidates, then the second's |
| PdfLatex.ExpandOne | mem/tasks/pdflatex.py:63-67 | a single match gives exactly its candidates |
| PdfLatex.LatexDepsLines | mem/tasks/pdflatex.py:52-69 | the LaTeX candidates of a text with a line break after a are those of a, then those of the rest |
| PdfLatex.GraphicDepsLines | mem/tasks/pdflatex.py:71-84 | the same for graphic candidates, when the rest does not start with white space, `[` or `{` |
| PdfLatex.InputLineDeps | mem/tasks/pdflatex.py:52-69 | a line with one input or include directive gives exactly the candidates of its argument |
| PdfLatex.CommentedLineDeps | mem/tasks/pdflatex.py:27-32 | a directive behind a `%` gives no candidate, LaTeX or graphic |
| PdfLatex.FindPotentialLatexDeps | mem/tasks/pdflatex.py:52-69 | the candidates of every input or include match, in document order |
| PdfLatex.ExpandLatexMatches | mem/tasks/pdflatex.py:62-69 | the loop appends each match's candidates in turn |
| PdfLatex.FindPotentialGraphicDeps | mem/tasks/pdflatex.py:71-84 | the candidates of every includegraphics match, in document order |
| PdfLatex.ExpandGraphicMatches | mem/tasks/pdflatex.py:77-84 | the loop appends each match's candidates in turn |
| PdfLatex.NeedRerunIff | mem/tasks/pdflatex.py:48-50 | `_need_rerun` holds exactly when the rerun marker occurs in the output |
| PdfLatex.ValidateTarget | mem/tasks/pdflatex.py:103-108 | the target is returned unchanged exactly when its extension, lower-cased, is `.pdf`; otherwise the ValueError with its message |
| PdfLatex.CheckTargetDefault | mem/tasks/pdflatex.py:110-118 | without a target, the source's stem with `.pdf` is returned |
| PdfLatex.CheckTargetGiven | mem/tasks/pdflatex.py:115-118 | a given target is kept exactly when its extension is `.pdf` in any case |
| PdfLatex.Builder.constructor | mem/tasks/pdflatex.py:34-37 | `_deps` starts empty |
| PdfLatex.Builder.AddExisting | mem/tasks/pdflatex.py:93-95 | appends, in order, each existing name not yet listed; every existing name is then listed |
| PdfLatex.Builder.FindDependencies | mem/tasks/pdflatex.py:86-101 | `_deps` stays free of repeats and only grows; every existing candidate of the text, and of each LaTeX file searched, is listed; every file searched was found from the text through LaTeX candidates only; every name added was searched or is a graphic candidate of the text or of a searched file |
| PdfLatex.Builder.Visit | mem/tasks/pdflatex.py:98-101 | appending a new LaTeX file and searching its contents keeps those facts, and every name it adds besides the file is accounted for from the file's contents |
| PdfLatexUnderscore.FindPotentialDeps | mem_/tasks/pdflatex.py:35-52 | the candidates of every leading input or include match, in document order |
| PdfLatexUnderscore.LeadingLineDeps | mem_/tasks/pdflatex.py:14-15 | a line whose directive comes after white space only gives the candidates of everything up to the last `}` of the line |
| PdfLatexUnderscore.LeadingTextDeps | mem_/tasks/pdflatex.py:14-15 | a directive after other text on its line gives nothing |
| PdfLatexUnderscore.DepsLines | mem_/tasks/pdflatex.py:35-52 | the candidates of a text with a line break after a are those of a, then those of the rest, when a does not end in white space |
| PdfLatexUnderscore.Builder.constructor | mem_/tasks/pdflatex.py:17-20 | `_deps` starts empty |
| PdfLatexUnderscore.Builder.FindDependencies | mem_/tasks/pdflatex.py:71-80 | `_deps` stays free of repeats and only grows; every existing candidate of the text and of each file searched is listed; each file searched was found from the text; every name added was searched; from an empty `_deps` the list ends closed under the candidates of its files |
| PdfLatexUnderscore.Builder.Visit | mem_/tasks/pdflatex.py:77-80 | appending a new file and searching its contents keeps those facts, and adds nothing but the file and files searched inside |
| Gcc.TargetIncFlag | mem/tasks/gcc.py:32-40 | `["-I" + dirname(target)]` exactly when some source lies in another directory than the target, else `[]` |
| Gcc.CombineOpt | mem/tasks/gcc.py:66-69 | `-combine` exactly when there is more than one source |
| Gcc.RuleFor | mem/tasks/gcc.py:149-160 | `.c` goes to `t_c_obj`, `.cpp` to `t_cpp_obj`, anything else to `fail` |
| Gcc.BuildObj | mem/tasks/gcc.py:149-162 | `build_obj` starts the rule for the extension on the target and sources, or fails naming the extension |
| Gcc.Rooted | mem/tasks/gcc.py:182 | each source joined onto the working directory, in order |
| Gcc.ObjWithTarget | mem/tasks/gcc.py:178-193 | with a target, mixed extensions fail; otherwise one job builds every rooted source into `join(BuildDir, target)` by the first source's extension, and no source at all fails |
| Gcc.ObjEach | mem/tasks/gcc.py:195-208 | without a target, the jobs ObjJobs describes, or the failure of the first unknown extension |
| Gcc.ObjJobsFailure | mem/tasks/gcc.py:196-202 | once one source has an unknown extension, the whole call fails |
| Gcc.ObjJobsNext | mem/tasks/gcc.py:196-202 | each further source adds its job, nothing for a header |
| Gcc.ObjJobsAppend | mem/tasks/gcc.py:196-208 | jobs follow source order: two runs of sources give the first run's jobs, then the second's |
| Gcc.ObjJobsShape | mem/tasks/gcc.py:196-202 | one job per non-header source, compiling it alone into `BuildDir/<stem of its base name>.o` |
| Gcc.NonHeaders | mem/tasks/gcc.py:201 | the sources kept are sources whose extension is not `.h` |
| Gcc.Prefixed | mem/tasks/gcc.py:135-136 | each library directory gets `-L` and each library `-l` in front, in order |
| Gcc.ProgArgsHead | mem/tasks/gcc.py:138-139 | the link command starts with the compiler, `-o`, the target, then CFLAGS and LINKFLAGS in order |
| Gcc.ProgArgsTail | mem/tasks/gcc.py:135-139 | then one `-L` per library directory, the objects, and one `-l` per library, each in order |
| Gcc.SharedCFlags | mem/tasks/gcc.py:224-232 | `-shared` comes first; keyword CFLAGS win over the environment's and are taken out of the keywords; without either there is an AttributeError |
| Ar.Normalise | mem_/tasks/ar.py:46-49 | the intended normalisation ends with the suffix and starts with the prefix |
| Ar.NormaliseShape | mem_/tasks/ar.py:46-49 | the name is kept, with at most the prefix in front and the suffix behind, each only when missing |
| Ar.NormaliseIdempotent | mem_/tasks/ar.py:46-49 | normalising a normalised name changes nothing |
| Ar.AsWrittenAgrees | mem_/tasks/ar.py:46-49 | with a two-character suffix and a three-character prefix the code as written normalises as intended |
| Ar.DefaultsAgree | mem_/tasks/ar.py:43-49 | so with the defaults `.a` and `lib` it does |
| Ar.AsWrittenDoublesSuffix | mem_/tasks/ar.py:46-47 | with LIBSUFFIX `.so`, `libfoo.so` becomes `libfoo.so.so` as written, where the intended rule keeps it |
| Ar.AsWrittenNotIdempotent | mem_/tasks/ar.py:46-49 | with LIBSUFFIX `.so`, normalising twice as written differs from normalising once |
| Ar.ArTarget | mem_/tasks/ar.py:46-51 | the target `ar` hands to `t_ar`, with the normalisation as written, ends with the suffix |
| Ar.ArTargetIntended | mem_/tasks/ar.py:46-51 | the same target with the intended normalisation ends with the suffix |
| Ar.ArTargetAgrees | mem_/tasks/ar.py:46-51 | with a two-character suffix and a three-character prefix, the target as written is the intended one |
| Ar.ArTargetDoublesSuffix | mem_/tasks/ar.py:46-51 | with LIBSUFFIX `.so`, `ar("libfoo.so", …)` hands `t_ar` the target `libfoo.so.so` in the build directory, where the intended rule keeps `libfoo.so` |
| Ar.ArTargetInBuildDir | mem_/tasks/ar.py:46-51 | with a relative prefix the target is the name, normalised as written and as intended, inside the build directory |
| Ar.AsList | mem_/tasks/ar.py:30-31 | a list of sources is kept; a single source is wrapped in a list |
| Ar.TAr | mem_/tasks/ar.py:29-34 | the sources are the dependencies, and the command is ARCMD, ARARGS in order, the target, then `str` of each source in order |

## Left out

- Threads: `Runable`, the thread limit, `threading.local` and the permit release in `fail` exist for concurrency. One thread is modelled, `fail` is the outcome `Exit`, and `build_obj`'s thread is the job it would start.
- SHA-1, `pickle.dumps` and `pickle.load` are parameters or left out: a record holds the value written, or is marked unreadable.
- The per-path hash memo is one map in the `Context` object; it is never invalidated, as in the source.
- Running the compiler, the archiver and pdflatex (`util.run`, `quietly_execute`, `_run_pdflatex`), `make_depends`, and the `build` methods of both LaTeX builders are left out; they depend on the external tools. In mem_/tasks/pdflatex.py `build` could not run as written: it binds the checked target to a misspelled local `targer` (line 99), so the unchecked `target` reaches `ensure_file_dir` and `File(target)`; the loop calls `_run_pdflatex` with an undefined `source_list` (line 104), a NameError; and the memoized `pdflatex` that calls it drops the `File(target)` that `build` returns (line 114), so it returns None.
- `t_c_obj` and `t_cpp_obj` are modelled through what they choose (`-combine`, the include flag); their argument lists go through `list(inc_dirs)` of a Python set, whose order is unspecified. `t_cpp_obj` records its sources as dependencies only on the failure branch; that is not modelled.
- Directory creation (`ensure_file_dir`, `os.makedirs` in `get_build_dir` and `_restore`, `os.mkdir` in `Mem.__init__`) is left out: the file system is a map from paths.
- `get_build_dir` is modelled only for a string `build_dir`; the function and environment branches consult the engine's globals.
- mem/util.py is not part of this model; mem/tasks/gcc.py calls its `get_build_dir`, `flatten` and `convert_cmd`, which are taken to be those of mem_/util.py.
- mem/_mem.py defines no `memoize`, so only its `_run_task` is modelled; its lookup side is that of mem_/__init__.py.
- Printing to stdout and stderr is left out.
- `_find_potential_*` compare the extension with `is ''`; the model treats that identity test as equality, which CPython gives for the interned empty string.
- `obj` treats an empty target like no target (`if target:`); the model's ObjEach is that branch.
- TexScan.LastClose: states only where the `}` it returns lies; TexScan.LastCloseBeforeSkips states that it is the last one.
- TexScan.LineEnd, TexScan.SkipSpace, TexScan.CommentFreeEnd, TexScan.FirstClose, TexScan.LastCloseBefore: their own contracts state where each stops; that it is the first (or last) such place is stated by the lemma with the same name and `Skips` after it.
- TexScan.LastHitWithin: states only that the match comes from a position tried; TexScan.LastHitAt states that it is the last one where the rest matches.
- MergingMemo.Mem.GetHash: mem/nodes is not part of this model. mem/_mem.py imports the git-backed `File` of mem/nodes, which has `hash()` and no `get_hash`; the model hashes its nodes as mem_/nodes.py's `File` does, so what `gh` of mem/_mem.py does with a git-backed node is not modelled.
- MergingMemo.Mem.Persist: for the same reason its nodes are stored as mem_/nodes.py's `store()` does (a copy into the blob directory), not with `git hash-object -w`.
- Memo.Mem.Memoize: a task body that raises is not modelled. In the source the exception leaves `_run_task` after `call_start`, so the pushed frame stays on the stack and no blob or record is written; the model's task bodies return or exit, and for them the stack is left as it was found.
- Memo.Mem.RunTask: the same; a raising body is not one of its outcomes.
- MergingMemo.Mem.RunTask: the same for mem/_mem.py.
- TexScan.MatchAt, TexScan.DirectiveAt, TexScan.GraphicDirectiveAt: their own contracts give bounds only; which group they find is stated by the lemmas LastBackslash, InputAt, GraphicAt, GraphicWithOptionsAt and LeadingAt.
- TexScan.InputAt, TexScan.GraphicAt and TexScan.LastBackslash cover lines with one directive: with two MemLatex directives on one line the greedy prefix backtracks to the last one, and only that one is found; the model's FindAll does this, but no lemma states it for two.
- Stacks.DepsStack.AddDep, Stacks.DepsStack.AddDeps and their MergingDepsStack counterparts require a non-empty stack: on an empty one the source raises IndexError, which is not modelled.
- Memo.Mem.AddDep: requires a non-empty stack; `mem.add_dep` called outside any task raises IndexError in mem_/__init__.py, which is not modelled.
- Memo.Mem.AddDeps: the same for `mem.add_deps`.
- MergingMemo.Mem.AddDep: the same for `add_dep` in mem/_mem.py.
- MergingMemo.Mem.AddDeps: the same for `add_deps` in mem/_mem.py.
- TexLines.GroupsSplit: for the mem_/tasks/pdflatex.py pattern it requires that a not end in white space. When a ends in blank lines, a match of `^\s*` can start in a and run into the rest; it then finds the rest's first group, so the split appears to hold there too, but the lemma does not cover that case.
- PdfLatexUnderscore.DepsLines: carries the same condition, for the same reason.
- The dict branch of `gh` iterates a Python dict, whose order is given to the model as the order of its entries.

## Findings

| source | as written | input that shows it | evidently intended | confidence | as-written member | corrected member |
|---|---|---|---|---|---|---|
| mem_/tasks/ar.py:46-49 | the suffix test compares the last two characters with LIBSUFFIX and the prefix test the first three with LIBPREFIX, whatever their lengths | `ar("libfoo.so", …, LIBSUFFIX=".so")` names the library `libfoo.so.so` | add the suffix unless the name ends with it, the prefix unless it starts with it, so that normalising is idempotent | not executed | Ar.AsWrittenDoublesSuffix | Ar.NormaliseIdempotent |
