/**
 * The content-addressed artifact node of mem_/nodes.py: class `File`, its
 * per-path hash memo (`File._hash_cache`), its hash pre-image, and `store`
 * and `restore` against a blob directory sharded by hash prefix.
 *
 * The file system is a map from path to contents; the blob directory is part
 * of it, under `blobDir`. The state `File` reads and writes (the memo, the
 * file system, and `mem.cwd`, `mem.blob_dir`, `mem.failed`) is gathered in
 * one `Context` object.
 */
module Nodes {
  import opened Wrappers
  import opened Paths
  import opened Hashing

  /** A regular file: its bytes and its permission mode (`st_mode`). */
  datatype FileData = FileData(bytes: string, mode: nat)

  type FileSystem = map<string, FileData>

  /** `File._hash_cache`: path to hash, filled on first use, never invalidated. */
  type HashMemo = map<string, string>

  /** A `File` node: the path joined with the working directory, and the
      hash recorded when the node was made (`_hash`). This pair is exactly
      what `__getstate__` pickles. */
  datatype File = File(path: string, hash: string)

  datatype NodeError =
    | Aborted                     // `mem.failed` was set: the process exits
    | DoesNotExist(path: string)  // NodeError("<path> does not exist!")

  const NotFound: string := "NOT FOUND"
  const BlockSize: nat := 65536   // 1 << 16

  /** The header "blob <size> <mode>\0" hashed before the file's bytes. */
  function Header(d: FileData): string {
    "blob " + Decimal(|d.bytes|) + " " + Decimal(d.mode) + [0 as char]
  }

  /** `_compute_hash`: "NOT FOUND" for a missing file, otherwise the SHA-1
      of the header followed by the file's bytes. */
  function ContentHash(sha1: string -> string, fs: FileSystem, path: string): string {
    if path !in fs then NotFound else sha1(Header(fs[path]) + fs[path].bytes)
  }

  /** What `get_hash()` returns: the memo entry when there is one, else the
      content hash (which `get_hash` then records). */
  function CachedHash(sha1: string -> string, fs: FileSystem, memo: HashMemo, path: string): string {
    if path in memo then memo[path] else ContentHash(sha1, fs, path)
  }

  /** `_store_path`: `blob_dir/h[:2]/h[2:]` for the recorded hash. */
  function StorePath(blobDir: string, h: string): string {
    Shard(blobDir, h)
  }

  /** `m2` keeps every entry of `m1` unchanged. */
  ghost predicate Extends<K, V>(m2: map<K, V>, m1: map<K, V>) {
    forall k :: k in m1 ==> k in m2 && m2[k] == m1[k]
  }

  /** The memo after `get_hash()` has been asked of every path in `paths`,
      as `gh` does while encoding: each path not yet in the memo gets its
      content hash. */
  function Warm(sha1: string -> string, fs: FileSystem, memo: HashMemo, paths: seq<string>): (m: HashMemo)
    ensures m.Keys == memo.Keys + (set p | p in paths)
    ensures Extends(m, memo)
    ensures forall p :: CachedHash(sha1, fs, m, p) == CachedHash(sha1, fs, memo, p)
  {
    map p | p in memo.Keys + (set q | q in paths) :: CachedHash(sha1, fs, memo, p)
  }

  /** Once every path is in the memo, later hashing sees the same value for
      it, whatever happens to the file system in between, as long as the
      memo only gains entries. */
  lemma MemoPinsHashes(sha1: string -> string, fs1: FileSystem, memo1: HashMemo,
                       fs2: FileSystem, memo2: HashMemo, paths: seq<string>)
    requires forall p :: p in paths ==> p in memo1
    requires Extends(memo2, memo1)
    ensures forall p :: p in paths ==> CachedHash(sha1, fs1, memo1, p) == CachedHash(sha1, fs2, memo2, p)
  {
  }

  /** The result of one or more store/restore steps; `ok` is false when a
      copy raised IOError. */
  datatype Effect = Effect(fs: FileSystem, memo: HashMemo, ok: bool)

  /** `store()`: nothing when the blob exists, else copy the file there. */
  function StoreEffect(blobDir: string, fs: FileSystem, f: File): (r: (FileSystem, bool))
  {
    var spath := StorePath(blobDir, f.hash);
    if spath in fs then (fs, true)
    else if f.path in fs then (fs[spath := fs[f.path]], true)
    else (fs, false)
  }

  /** `_restore()`: the path is (re)created empty by `open(path, "wb")` and
      then overwritten by a copy of the blob; when the blob is missing the
      copy raises IOError and the empty file stays. */
  function Rewrite(blobDir: string, newFileMode: nat, fs: FileSystem, f: File): (r: (FileSystem, bool))
  {
    var fs1 := fs[f.path := FileData("", newFileMode)];
    var spath := StorePath(blobDir, f.hash);
    if spath in fs1 then (fs1[f.path := fs1[spath]], true) else (fs1, false)
  }

  /** `restore()`: rewrite when the path is missing, or when its hash (as
      `get_hash` reports it) differs from the recorded one. */
  function RestoreEffect(sha1: string -> string, blobDir: string, newFileMode: nat,
                         fs: FileSystem, memo: HashMemo, f: File): Effect
  {
    if f.path !in fs then
      var (fs', ok) := Rewrite(blobDir, newFileMode, fs, f);
      Effect(fs', memo, ok)
    else
      var live := CachedHash(sha1, fs, memo, f.path);
      var memo' := memo[f.path := live];
      if live == f.hash then Effect(fs, memo', true)
      else
        var (fs', ok) := Rewrite(blobDir, newFileMode, fs, f);
        Effect(fs', memo', ok)
  }

  /** The nodes `store(result)` and `restore(result)` visit, in visiting
      order: a node is acted on; an iterable is walked (a dict yields its
      keys); anything else is skipped. */
  function Artifacts(v: Value): seq<File>
    decreases v
  {
    match v
    case FileNode(p, h) => [File(p, h)]
    case Iterable(es) => ArtifactsAll(es)
    case HashableGroup(_, es) => ArtifactsAll(es)
    case Dict(ents) => ArtifactsKeys(ents)
    case _ => []
  }

  function ArtifactsAll(es: seq<Value>): seq<File>
    decreases es
  {
    if |es| == 0 then [] else Artifacts(es[0]) + ArtifactsAll(es[1..])
  }

  function ArtifactsKeys(ents: seq<Entry>): seq<File>
    decreases ents
  {
    if |ents| == 0 then []
    else
      assert ents[0].key < ents[0];
      Artifacts(ents[0].key) + ArtifactsKeys(ents[1..])
  }

  /** Storing the nodes in order, stopping at the first IOError. */
  function StoreAllEffect(blobDir: string, fs: FileSystem, files: seq<File>): (r: (FileSystem, bool))
    decreases |files|
  {
    if files == [] then (fs, true)
    else
      var (fs', ok) := StoreAllEffect(blobDir, fs, files[..|files| - 1]);
      if !ok then (fs', false) else StoreEffect(blobDir, fs', files[|files| - 1])
  }

  /** Restoring the nodes in order, stopping at the first IOError. */
  function RestoreAllEffect(sha1: string -> string, blobDir: string, newFileMode: nat,
                            fs: FileSystem, memo: HashMemo, files: seq<File>): Effect
    decreases |files|
  {
    if files == [] then Effect(fs, memo, true)
    else
      var e := RestoreAllEffect(sha1, blobDir, newFileMode, fs, memo, files[..|files| - 1]);
      if !e.ok then e else RestoreEffect(sha1, blobDir, newFileMode, e.fs, e.memo, files[|files| - 1])
  }

  /** `f.read(1 << 16)` at offset pos. */
  function ReadBlock(bytes: string, pos: nat): (r: string)
    requires pos <= |bytes|
    ensures |r| <= BlockSize
    ensures r == "" <==> pos == |bytes|
  {
    if |bytes| - pos <= BlockSize then bytes[pos..] else bytes[pos..pos + BlockSize]
  }

  /** The blocks `_compute_hash` reads from offset pos to the end of the file. */
  function BlocksFrom(bytes: string, pos: nat): seq<string>
    requires pos <= |bytes|
    decreases |bytes| - pos
  {
    if pos == |bytes| then []
    else
      var b := ReadBlock(bytes, pos);
      [b] + BlocksFrom(bytes, pos + |b|)
  }

  function Concat(blocks: seq<string>): string {
    if blocks == [] then "" else blocks[0] + Concat(blocks[1..])
  }

  /** The blocks put back together are the rest of the file; each holds
      between 1 and 64 KiB, and only the last may be short. */
  lemma {:induction false} BlocksReassemble(bytes: string, pos: nat)
    requires pos <= |bytes|
    ensures Concat(BlocksFrom(bytes, pos)) == bytes[pos..]
    ensures var bs := BlocksFrom(bytes, pos);
      forall k :: 0 <= k < |bs| ==>
        0 < |bs[k]| <= BlockSize && (k < |bs| - 1 ==> |bs[k]| == BlockSize)
    decreases |bytes| - pos
  {
    if pos < |bytes| {
      var b := ReadBlock(bytes, pos);
      BlocksReassemble(bytes, pos + |b|);
      assert bytes[pos..] == b + bytes[pos + |b|..];
      var bs := BlocksFrom(bytes, pos);
      assert bs[1..] == BlocksFrom(bytes, pos + |b|);
      if |bs| > 1 {
        assert pos + |b| < |bytes|;
        assert |b| == BlockSize;
      }
    }
  }

  /** `__getstate__`: the node pickles as exactly {path, hash}. */
  function GetState(f: File): (d: map<string, string>)
    ensures d.Keys == {"path", "hash"}
    ensures d["path"] == f.path && d["hash"] == f.hash
  {
    map["path" := f.path, "hash" := f.hash]
  }

  /** `__setstate__`: the path and hash are taken as they are; no hash is computed. */
  function SetState(d: map<string, string>): (f: File)
    requires "path" in d && "hash" in d
    ensures f.path == d["path"] && f.hash == d["hash"]
  {
    File(d["path"], d["hash"])
  }

  /** A node survives pickling unchanged. */
  lemma StateRoundTrip(f: File)
    ensures SetState(GetState(f)) == f
  {
  }

  /** Storing is idempotent: a second store finds the blob and does nothing. */
  lemma StoreIdempotent(blobDir: string, fs: FileSystem, f: File)
    ensures var (fs1, ok1) := StoreEffect(blobDir, fs, f);
      ok1 ==> StorePath(blobDir, f.hash) in fs1 && StoreEffect(blobDir, fs1, f) == (fs1, true)
  {
  }

  /** After a successful store of a list of nodes, every node's blob is
      present, so storing them all again changes nothing. */
  lemma {:induction false} StoreAllStoresEvery(blobDir: string, fs: FileSystem, files: seq<File>)
    requires StoreAllEffect(blobDir, fs, files).1
    ensures forall f :: f in files ==> StorePath(blobDir, f.hash) in StoreAllEffect(blobDir, fs, files).0
    ensures Extends(StoreAllEffect(blobDir, fs, files).0, fs)
    decreases |files|
  {
    if files != [] {
      var init := files[..|files| - 1];
      StoreAllStoresEvery(blobDir, fs, init);
      var fs' := StoreAllEffect(blobDir, fs, init).0;
      forall f | f in files
        ensures StorePath(blobDir, f.hash) in StoreAllEffect(blobDir, fs, files).0
      {
        if f != files[|files| - 1] {
          assert f in init;
        }
      }
    }
  }

  lemma {:induction false} StoreAllIdempotent(blobDir: string, fs: FileSystem, files: seq<File>)
    requires StoreAllEffect(blobDir, fs, files).1
    ensures var fs1 := StoreAllEffect(blobDir, fs, files).0;
      StoreAllEffect(blobDir, fs1, files) == (fs1, true)
  {
    StoreAllStoresEvery(blobDir, fs, files);
    StoreAllNoOp(blobDir, StoreAllEffect(blobDir, fs, files).0, files);
  }

  lemma {:induction false} StoreAllNoOp(blobDir: string, fs: FileSystem, files: seq<File>)
    requires forall f :: f in files ==> StorePath(blobDir, f.hash) in fs
    ensures StoreAllEffect(blobDir, fs, files) == (fs, true)
    decreases |files|
  {
    if files != [] {
      var init := files[..|files| - 1];
      assert forall f :: f in init ==> f in files;
      StoreAllNoOp(blobDir, fs, init);
      assert files[|files| - 1] in files;
    }
  }

  /** A restore that finds the file present with the recorded hash leaves
      the file system untouched; otherwise the file becomes the blob. */
  lemma RestoreOutcome(sha1: string -> string, blobDir: string, newFileMode: nat,
                       fs: FileSystem, memo: HashMemo, f: File)
    requires f.path != StorePath(blobDir, f.hash)
    ensures var e := RestoreEffect(sha1, blobDir, newFileMode, fs, memo, f);
      && (f.path in fs && CachedHash(sha1, fs, memo, f.path) == f.hash ==> e.fs == fs && e.ok)
      && (f.path !in fs || CachedHash(sha1, fs, memo, f.path) != f.hash ==>
            if StorePath(blobDir, f.hash) in fs
            then e.ok && e.fs == fs[f.path := fs[StorePath(blobDir, f.hash)]]
            else !e.ok && e.fs == fs[f.path := FileData("", newFileMode)])
  {
  }

  /** Restoring twice leaves the same files as restoring once, even though
      the memo may still hold a stale hash for the path. */
  lemma RestoreIdempotent(sha1: string -> string, blobDir: string, newFileMode: nat,
                          fs: FileSystem, memo: HashMemo, f: File)
    requires f.path != StorePath(blobDir, f.hash)
    ensures var e1 := RestoreEffect(sha1, blobDir, newFileMode, fs, memo, f);
      RestoreEffect(sha1, blobDir, newFileMode, e1.fs, e1.memo, f).fs == e1.fs
  {
    var e1 := RestoreEffect(sha1, blobDir, newFileMode, fs, memo, f);
    RestoreOutcome(sha1, blobDir, newFileMode, fs, memo, f);
    RestoreOutcome(sha1, blobDir, newFileMode, e1.fs, e1.memo, f);
    var spath := StorePath(blobDir, f.hash);
    if f.path in fs && CachedHash(sha1, fs, memo, f.path) == f.hash {
      assert e1.memo[f.path] == f.hash;
    } else if spath in fs {
      assert e1.fs[spath] == fs[spath];
    }
  }

  /** No node's path is the blob path of a node in the list: restoring one
      node never overwrites the blob another one needs. */
  ghost predicate BlobsApart(blobDir: string, files: seq<File>) {
    forall f, g :: f in files && g in files ==> g.path != StorePath(blobDir, f.hash)
  }

  /** A later `restore()` of f cannot fail: either the memo already reports
      the recorded hash for the present file, or the blob is there. */
  ghost predicate Restorable(blobDir: string, fs: FileSystem, memo: HashMemo, f: File) {
    || (f.path in fs && f.path in memo && memo[f.path] == f.hash)
    || StorePath(blobDir, f.hash) in fs
  }

  /** `restore()` changes the file system at the node's path only, and the
      memo only gains entries. */
  lemma RestoreFrame(sha1: string -> string, blobDir: string, newFileMode: nat,
                     fs: FileSystem, memo: HashMemo, g: File)
    ensures var e := RestoreEffect(sha1, blobDir, newFileMode, fs, memo, g);
      && e.fs.Keys == fs.Keys + {g.path}
      && (forall p :: p in fs && p != g.path ==> e.fs[p] == fs[p])
      && Extends(e.memo, memo)
  {
  }

  /** A restorable node restores without error, and stays restorable. */
  lemma RestoreSucceeds(sha1: string -> string, blobDir: string, newFileMode: nat,
                        fs: FileSystem, memo: HashMemo, f: File)
    requires f.path != StorePath(blobDir, f.hash)
    requires Restorable(blobDir, fs, memo, f)
    ensures var e := RestoreEffect(sha1, blobDir, newFileMode, fs, memo, f);
      e.ok && Restorable(blobDir, e.fs, e.memo, f)
  {
  }

  /** A restore that succeeded leaves the node restorable. */
  lemma RestoredIsRestorable(sha1: string -> string, blobDir: string, newFileMode: nat,
                             fs: FileSystem, memo: HashMemo, f: File)
    requires f.path != StorePath(blobDir, f.hash)
    requires RestoreEffect(sha1, blobDir, newFileMode, fs, memo, f).ok
    ensures var e := RestoreEffect(sha1, blobDir, newFileMode, fs, memo, f);
      Restorable(blobDir, e.fs, e.memo, f)
  {
  }

  /** Restoring g keeps f restorable unless g's path is f's blob. */
  lemma RestoreKeepsOthers(sha1: string -> string, blobDir: string, newFileMode: nat,
                           fs: FileSystem, memo: HashMemo, g: File, f: File)
    requires g.path != StorePath(blobDir, f.hash)
    requires Restorable(blobDir, fs, memo, f)
    ensures var e := RestoreEffect(sha1, blobDir, newFileMode, fs, memo, g);
      Restorable(blobDir, e.fs, e.memo, f)
  {
    RestoreFrame(sha1, blobDir, newFileMode, fs, memo, g);
  }

  /** Restoring a list keeps every node of `others` restorable when no
      restored path is one of their blobs; the memo only gains entries. */
  lemma {:induction false} RestoreAllKeeps(sha1: string -> string, blobDir: string, newFileMode: nat,
                                          fs: FileSystem, memo: HashMemo, files: seq<File>, others: seq<File>)
    requires forall f, g :: f in others && g in files ==> g.path != StorePath(blobDir, f.hash)
    requires forall f :: f in others ==> Restorable(blobDir, fs, memo, f)
    ensures var e := RestoreAllEffect(sha1, blobDir, newFileMode, fs, memo, files);
      && (forall f :: f in others ==> Restorable(blobDir, e.fs, e.memo, f))
      && Extends(e.memo, memo)
    decreases |files|
  {
    if files != [] {
      var init := files[..|files| - 1];
      var g := files[|files| - 1];
      assert forall x :: x in init ==> x in files;
      RestoreAllKeeps(sha1, blobDir, newFileMode, fs, memo, init, others);
      var e := RestoreAllEffect(sha1, blobDir, newFileMode, fs, memo, init);
      if e.ok {
        forall f | f in others
          ensures Restorable(blobDir, RestoreEffect(sha1, blobDir, newFileMode, e.fs, e.memo, g).fs,
                             RestoreEffect(sha1, blobDir, newFileMode, e.fs, e.memo, g).memo, f)
        {
          RestoreKeepsOthers(sha1, blobDir, newFileMode, e.fs, e.memo, g, f);
        }
        RestoreFrame(sha1, blobDir, newFileMode, e.fs, e.memo, g);
      }
    }
  }

  /** When every node is restorable and no node's path is a blob path,
      restoring the whole list succeeds. */
  lemma {:induction false} RestoreAllSucceeds(sha1: string -> string, blobDir: string, newFileMode: nat,
                                             fs: FileSystem, memo: HashMemo, files: seq<File>)
    requires BlobsApart(blobDir, files)
    requires forall f :: f in files ==> Restorable(blobDir, fs, memo, f)
    ensures RestoreAllEffect(sha1, blobDir, newFileMode, fs, memo, files).ok
    decreases |files|
  {
    if files != [] {
      var init := files[..|files| - 1];
      var g := files[|files| - 1];
      assert g in files;
      assert forall x :: x in init ==> x in files;
      RestoreAllSucceeds(sha1, blobDir, newFileMode, fs, memo, init);
      RestoreAllKeeps(sha1, blobDir, newFileMode, fs, memo, init, [g]);
      var e := RestoreAllEffect(sha1, blobDir, newFileMode, fs, memo, init);
      assert Restorable(blobDir, e.fs, e.memo, g);
      RestoreSucceeds(sha1, blobDir, newFileMode, e.fs, e.memo, g);
    }
  }

  /** After a successful restore of a list, every node in it is restorable
      again, so a second restore of the same list succeeds too. */
  lemma {:induction false} RestoreAllLeavesRestorable(sha1: string -> string, blobDir: string, newFileMode: nat,
                                                     fs: FileSystem, memo: HashMemo, files: seq<File>)
    requires BlobsApart(blobDir, files)
    requires RestoreAllEffect(sha1, blobDir, newFileMode, fs, memo, files).ok
    ensures var e := RestoreAllEffect(sha1, blobDir, newFileMode, fs, memo, files);
      forall f :: f in files ==> Restorable(blobDir, e.fs, e.memo, f)
    decreases |files|
  {
    if files != [] {
      var init := files[..|files| - 1];
      var g := files[|files| - 1];
      LastSplit(blobDir, files);
      var e := RestoreAllEffect(sha1, blobDir, newFileMode, fs, memo, init);
      RestoreAllLeavesRestorable(sha1, blobDir, newFileMode, fs, memo, init);
      RestoreLastLeavesRestorable(sha1, blobDir, newFileMode, e.fs, e.memo, init, g);
    }
  }

  /** Splitting a list into its front and its last node keeps it apart. */
  lemma LastSplit(blobDir: string, files: seq<File>)
    requires files != [] && BlobsApart(blobDir, files)
    ensures var init := files[..|files| - 1]; var g := files[|files| - 1];
      && BlobsApart(blobDir, init)
      && g.path != StorePath(blobDir, g.hash)
      && (forall f :: f in init ==> g.path != StorePath(blobDir, f.hash))
      && (forall f :: f in files ==> f in init || f == g)
  {
    var init := files[..|files| - 1];
    assert forall x :: x in init ==> x in files;
    assert files == init + [files[|files| - 1]];
  }

  /** Restoring g after the nodes of init keeps them restorable and, when it
      succeeds, leaves g restorable too. */
  lemma RestoreLastLeavesRestorable(sha1: string -> string, blobDir: string, newFileMode: nat,
                                    fs: FileSystem, memo: HashMemo, init: seq<File>, g: File)
    requires g.path != StorePath(blobDir, g.hash)
    requires forall f :: f in init ==> g.path != StorePath(blobDir, f.hash)
    requires forall f :: f in init ==> Restorable(blobDir, fs, memo, f)
    requires RestoreEffect(sha1, blobDir, newFileMode, fs, memo, g).ok
    ensures var e := RestoreEffect(sha1, blobDir, newFileMode, fs, memo, g);
      forall f :: f in init || f == g ==> Restorable(blobDir, e.fs, e.memo, f)
  {
    RestoredIsRestorable(sha1, blobDir, newFileMode, fs, memo, g);
    forall f | f in init
      ensures Restorable(blobDir, RestoreEffect(sha1, blobDir, newFileMode, fs, memo, g).fs,
                         RestoreEffect(sha1, blobDir, newFileMode, fs, memo, g).memo, f)
    {
      RestoreKeepsOthers(sha1, blobDir, newFileMode, fs, memo, g, f);
    }
  }

  /** Restoring a list only ever adds to the memo. */
  lemma RestoreAllExtends(sha1: string -> string, blobDir: string, newFileMode: nat,
                          fs: FileSystem, memo: HashMemo, files: seq<File>)
    ensures Extends(RestoreAllEffect(sha1, blobDir, newFileMode, fs, memo, files).memo, memo)
  {
    RestoreAllKeeps(sha1, blobDir, newFileMode, fs, memo, files, []);
  }

  /** After a successful store of a list, every node in it is restorable. */
  lemma StoredIsRestorable(blobDir: string, fs: FileSystem, memo: HashMemo, files: seq<File>)
    requires StoreAllEffect(blobDir, fs, files).1
    ensures forall f :: f in files ==> Restorable(blobDir, StoreAllEffect(blobDir, fs, files).0, memo, f)
  {
    StoreAllStoresEvery(blobDir, fs, files);
  }

  /** A missing file's "NOT FOUND" never equals the digest of a present
      file, so a lookup keyed on a missing input cannot hit. */
  lemma NotFoundIsNoDigest(sha1: string -> string, fs: FileSystem, missing: string, present: string)
    requires forall s :: IsHexDigest(sha1(s))
    requires missing !in fs && present in fs
    ensures ContentHash(sha1, fs, missing) != ContentHash(sha1, fs, present)
  {
    assert IsHexDigest(sha1(Header(fs[present]) + fs[present].bytes));
  }

  /** The process-wide state a `File` consults and changes. */
  class Context {
    var fs: FileSystem
    var memo: HashMemo          // File._hash_cache
    var failed: bool            // mem.failed
    const cwd: string           // mem.cwd
    const blobDir: string       // mem.blob_dir
    const sha1: string -> string
    const newFileMode: nat      // the mode `open(path, "wb")` gives a new file

    constructor (fs0: FileSystem, cwd: string, blobDir: string, sha1: string -> string, newFileMode: nat)
      ensures fs == fs0 && memo == map[] && !failed
      ensures this.cwd == cwd && this.blobDir == blobDir && this.sha1 == sha1
      ensures this.newFileMode == newFileMode
    {
      this.fs := fs0;
      this.memo := map[];
      this.failed := false;
      this.cwd := cwd;
      this.blobDir := blobDir;
      this.sha1 := sha1;
      this.newFileMode := newFileMode;
    }

    /** `File(file, filehash)`: `__new__` exits if the build has failed and
        raises NodeError for a missing path; `__init__` keeps a truthy
        `filehash` and otherwise asks `get_hash()`. */
    method NewFile(file: string, filehash: Option<string>) returns (r: Result<File, NodeError>)
      modifies this`memo
      ensures var path := Join(cwd, file);
        if failed then r == Failure(Aborted) && memo == old(memo)
        else if path !in fs then r == Failure(DoesNotExist(path)) && memo == old(memo)
        else if filehash.Some? && filehash.value != "" then
          r == Success(File(path, filehash.value)) && memo == old(memo)
        else
          && r == Success(File(path, CachedHash(sha1, fs, old(memo), path)))
          && memo == old(memo)[path := r.value.hash]
    {
      var path := Join(cwd, file);
      if failed {
        return Failure(Aborted);
      }
      if path !in fs {
        return Failure(DoesNotExist(path));
      }
      if filehash.Some? && filehash.value != "" {
        return Success(File(path, filehash.value));
      }
      var h := GetHash(path);
      r := Success(File(path, h));
    }

    /** `get_hash()`: the memo entry, or the content hash, which is then
        recorded in the memo. */
    method GetHash(path: string) returns (h: string)
      modifies this`memo
      ensures h == CachedHash(sha1, fs, old(memo), path)
      ensures memo == old(memo)[path := h]
      ensures path in old(memo) ==> memo == old(memo)
    {
      if path in memo {
        h := memo[path];
        return;
      }
      h := ComputeHash(path);
      memo := memo[path := h];
    }

    /** `_compute_hash()`: the header, then the file read in 64 KiB blocks,
        all fed to one SHA-1 object. */
    method ComputeHash(path: string) returns (h: string)
      ensures h == ContentHash(sha1, fs, path)
    {
      if path !in fs {
        return NotFound;
      }
      var data := fs[path];
      var fed := Feed(Header(data), data.bytes);
      h := sha1(fed);
    }

    /** The loop of `_compute_hash()`: read the bytes in 64 KiB blocks and
        feed each to the digest, here pictured as the text fed so far. */
    method Feed(fed0: string, bytes: string) returns (fed: string)
      ensures fed == fed0 + bytes
    {
      fed := fed0;
      var pos := 0;
      var block := ReadBlock(bytes, pos);
      while block != ""
        invariant 0 <= pos <= |bytes|
        invariant block == ReadBlock(bytes, pos)
        invariant fed == fed0 + bytes[..pos]
        decreases |bytes| - pos
      {
        ReadBlockExtends(bytes, pos);
        fed := fed + block;
        pos := pos + |block|;
        block := ReadBlock(bytes, pos);
      }
      assert bytes[..pos] == bytes;
    }

    /** `store()`. */
    method Store(f: File) returns (ok: bool)
      modifies this`fs
      ensures (fs, ok) == StoreEffect(blobDir, old(fs), f)
    {
      var spath := StorePath(blobDir, f.hash);
      if spath in fs {
        return true;
      }
      if f.path !in fs {
        return false;
      }
      fs := fs[spath := fs[f.path]];
      ok := true;
    }

    /** `restore()`: rewrite from the blob when the file is missing or changed. */
    method Restore(f: File) returns (ok: bool)
      modifies this`fs, this`memo
      ensures Effect(fs, memo, ok) == RestoreEffect(sha1, blobDir, newFileMode, old(fs), old(memo), f)
    {
      if f.path !in fs {
        ok := RewriteFromBlob(f);
        return;
      }
      var live := GetHash(f.path);
      if live != f.hash {
        ok := RewriteFromBlob(f);
      } else {
        ok := true;
      }
    }

    /** `_restore()`. */
    method RewriteFromBlob(f: File) returns (ok: bool)
      modifies this`fs
      ensures (fs, ok) == Rewrite(blobDir, newFileMode, old(fs), f)
    {
      fs := fs[f.path := FileData("", newFileMode)];
      var spath := StorePath(blobDir, f.hash);
      if spath !in fs {
        return false;
      }
      fs := fs[f.path := fs[spath]];
      ok := true;
    }

    /** `store(result)` in `_run_task`: every node in the result, in order. */
    method StoreResult(result: Value) returns (ok: bool)
      modifies this`fs
      ensures (fs, ok) == StoreAllEffect(blobDir, old(fs), Artifacts(result))
    {
      ok := StoreAll(Artifacts(result));
    }

    /** Stores the nodes in order, stopping at the first that fails. */
    method StoreAll(files: seq<File>) returns (ok: bool)
      modifies this`fs
      ensures (fs, ok) == StoreAllEffect(blobDir, old(fs), files)
    {
      var i := 0;
      while i < |files|
        invariant 0 <= i <= |files|
        invariant (fs, true) == StoreAllEffect(blobDir, old(fs), files[..i])
      {
        StoreAllStep(blobDir, old(fs), files, i);
        ok := Store(files[i]);
        if !ok {
          StoreAllStopsAtFailure(blobDir, old(fs), files, i + 1);
          return;
        }
        i := i + 1;
      }
      assert files[..i] == files;
      ok := true;
    }

    /** `restore(result)` in `memoize`: every node in the result, in order. */
    method RestoreResult(result: Value) returns (ok: bool)
      modifies this`fs, this`memo
      ensures Effect(fs, memo, ok)
           == RestoreAllEffect(sha1, blobDir, newFileMode, old(fs), old(memo), Artifacts(result))
    {
      ok := RestoreAll(Artifacts(result));
    }

    /** Restores the nodes in order, stopping at the first that fails. */
    method RestoreAll(files: seq<File>) returns (ok: bool)
      modifies this`fs, this`memo
      ensures Effect(fs, memo, ok) == RestoreAllEffect(sha1, blobDir, newFileMode, old(fs), old(memo), files)
    {
      var i := 0;
      while i < |files|
        invariant 0 <= i <= |files|
        invariant Effect(fs, memo, true)
               == RestoreAllEffect(sha1, blobDir, newFileMode, old(fs), old(memo), files[..i])
      {
        RestoreAllStep(sha1, blobDir, newFileMode, old(fs), old(memo), files, i);
        ok := Restore(files[i]);
        if !ok {
          RestoreAllStopsAtFailure(sha1, blobDir, newFileMode, old(fs), old(memo), files, i + 1);
          return;
        }
        i := i + 1;
      }
      assert files[..i] == files;
      ok := true;
    }

    /** Asks `get_hash()` of every path, in order, as `gh` does while encoding. */
    method WarmHashes(paths: seq<string>)
      modifies this`memo
      ensures memo == Warm(sha1, fs, old(memo), paths)
    {
      for i := 0 to |paths|
        invariant memo == Warm(sha1, fs, old(memo), paths[..i])
      {
        var h := GetHash(paths[i]);
        WarmStep(sha1, fs, old(memo), paths, i);
      }
      assert paths[..|paths|] == paths;
    }
  }

  /** Once a store fails, the rest of the list is not attempted. */
  lemma {:induction false} StoreAllStopsAtFailure(blobDir: string, fs: FileSystem, files: seq<File>, k: nat)
    requires k <= |files|
    requires !StoreAllEffect(blobDir, fs, files[..k]).1
    ensures StoreAllEffect(blobDir, fs, files) == StoreAllEffect(blobDir, fs, files[..k])
    decreases |files| - k
  {
    if k < |files| {
      assert files[..k + 1][..k] == files[..k];
      StoreAllStopsAtFailure(blobDir, fs, files, k + 1);
    } else {
      assert files[..k] == files;
    }
  }

  lemma {:induction false} RestoreAllStopsAtFailure(sha1: string -> string, blobDir: string, newFileMode: nat,
                                                   fs: FileSystem, memo: HashMemo, files: seq<File>, k: nat)
    requires k <= |files|
    requires !RestoreAllEffect(sha1, blobDir, newFileMode, fs, memo, files[..k]).ok
    ensures RestoreAllEffect(sha1, blobDir, newFileMode, fs, memo, files)
         == RestoreAllEffect(sha1, blobDir, newFileMode, fs, memo, files[..k])
    decreases |files| - k
  {
    if k < |files| {
      assert files[..k + 1][..k] == files[..k];
      RestoreAllStopsAtFailure(sha1, blobDir, newFileMode, fs, memo, files, k + 1);
    } else {
      assert files[..k] == files;
    }
  }

  lemma StoreAllStep(blobDir: string, fs: FileSystem, files: seq<File>, i: nat)
    requires i < |files|
    ensures var (fs', ok) := StoreAllEffect(blobDir, fs, files[..i]);
      StoreAllEffect(blobDir, fs, files[..i + 1])
        == if !ok then (fs', false) else StoreEffect(blobDir, fs', files[i])
  {
    assert files[..i + 1][..i] == files[..i];
  }

  lemma RestoreAllStep(sha1: string -> string, blobDir: string, newFileMode: nat,
                       fs: FileSystem, memo: HashMemo, files: seq<File>, i: nat)
    requires i < |files|
    ensures var e := RestoreAllEffect(sha1, blobDir, newFileMode, fs, memo, files[..i]);
      RestoreAllEffect(sha1, blobDir, newFileMode, fs, memo, files[..i + 1])
        == if !e.ok then e else RestoreEffect(sha1, blobDir, newFileMode, e.fs, e.memo, files[i])
  {
    assert files[..i + 1][..i] == files[..i];
  }

  /** One more path asked of `get_hash()` adds exactly its entry. */
  lemma WarmStep(sha1: string -> string, fs: FileSystem, memo: HashMemo, paths: seq<string>, i: nat)
    requires i < |paths|
    ensures var m := Warm(sha1, fs, memo, paths[..i]);
      Warm(sha1, fs, memo, paths[..i + 1]) == m[paths[i] := CachedHash(sha1, fs, m, paths[i])]
  {
    assert paths[..i + 1] == paths[..i] + [paths[i]];
    var m := Warm(sha1, fs, memo, paths[..i]);
    var m' := Warm(sha1, fs, memo, paths[..i + 1]);
    assert m'.Keys == m[paths[i] := CachedHash(sha1, fs, m, paths[i])].Keys;
  }

  /** The text read so far grows by the next block. */
  lemma ReadBlockExtends(bytes: string, pos: nat)
    requires pos <= |bytes|
    ensures pos + |ReadBlock(bytes, pos)| <= |bytes|
    ensures bytes[..pos + |ReadBlock(bytes, pos)|] == bytes[..pos] + ReadBlock(bytes, pos)
  {
  }
}
