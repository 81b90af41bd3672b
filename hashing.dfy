/**
 * The structural hash of the build engine: `Mem.get_hash` and its inner
 * `gh`, in the two packages of the repository. `gh` turns a value tree into
 * a pre-image string with tag bytes; `get_hash` feeds that string to SHA-1.
 *
 * SHA-1, `pickle.dumps(v, 2)` and the per-path file hash are not computed
 * here: they are given as functions, so every statement below holds for
 * whatever those functions are.
 */
module Hashing {

  /** The two packages differ in the order in which `gh` tries its cases. */
  datatype Variant =
    | MemPackage            // mem/_mem.py: get_hash first, then modules, iterables, code, ...
    | UnderscorePackage     // mem_/__init__.py: modules, iterables, then get_hash, else pickle

  /** The Python values `gh` distinguishes. */
  datatype Value =
    | FileNode(path: string, recorded: string)        // nodes.File: get_hash is the per-path memo; recorded is _hash
    | Hashable(hash: string)                          // another object with its own get_hash, not iterable
    | HashableGroup(hash: string, elems: seq<Value>)  // an iterable object that also has get_hash
    | ModuleRef(file: string)                         // a module, by the path of its source file
    | Dict(entries: seq<Entry>)                       // a dict, in its iteration order
    | Iterable(elems: seq<Value>)                     // list, tuple, set or other non-dict iterable
    | CodeRef(name: string, moduleName: string, file: string)  // function, class or bound method
    | AutoHashable(attrs: seq<Value>)                 // util.AutoHashable: its non-dunder attributes in dir() order
    | Builtin(name: string)                           // built-in function or method
    | Opaque(repr: string)                            // anything else (str, int, None, ...)

  datatype Entry = Entry(key: Value, val: Value)

  const Open: string := [1 as char]        // "\1"
  const Sep: string := [0 as char]         // "\0"
  const KeySep: string := [3 as char]      // "\3"
  const CodeTag: string := [4 as char]     // "\4"
  const AutoTag: string := [5 as char]     // "\5"

  /** `gh(v)`. `fileHash(p)` is what `File(p).get_hash()` returns, `pickle(v)`
      is `pickle.dumps(v, 2)`. */
  function Encode(variant: Variant, v: Value, fileHash: string -> string, pickle: Value -> string): string
    decreases v
  {
    match v
    case FileNode(p, _) => fileHash(p)
    case Hashable(h) => h
    case HashableGroup(h, es) =>
      if variant == MemPackage then h
      else Open + JoinAll(variant, es, fileHash, pickle) + Open
    case ModuleRef(f) => fileHash(f)
    case Dict(ents) => Open + JoinEntries(variant, ents, fileHash, pickle)
    case Iterable(es) => Open + JoinAll(variant, es, fileHash, pickle) + Open
    case CodeRef(name, modName, f) =>
      if variant == MemPackage then CodeTag + name + Sep + modName + Sep + fileHash(f)
      else pickle(v)
    case AutoHashable(attrs) =>
      if variant == MemPackage then AutoTag + JoinAll(variant, attrs, fileHash, pickle)
      else pickle(v)
    case Builtin(name) => if variant == MemPackage then name else pickle(v)
    case Opaque(_) => pickle(v)
  }

  /** `"\0".join([gh(e) for e in es])`. */
  function JoinAll(variant: Variant, es: seq<Value>, fileHash: string -> string, pickle: Value -> string): string
    decreases es
  {
    if |es| == 0 then ""
    else if |es| == 1 then Encode(variant, es[0], fileHash, pickle)
    else Encode(variant, es[0], fileHash, pickle) + Sep + JoinAll(variant, es[1..], fileHash, pickle)
  }

  /** `"\0".join([gh(k) + "\3" + gh(d[k]) for k in d])`. */
  function JoinEntries(variant: Variant, ents: seq<Entry>, fileHash: string -> string, pickle: Value -> string): string
    decreases ents
  {
    if |ents| == 0 then ""
    else
      assert ents[0].key < ents[0] && ents[0].val < ents[0];
      var first := Encode(variant, ents[0].key, fileHash, pickle) + KeySep + Encode(variant, ents[0].val, fileHash, pickle);
      if |ents| == 1 then first
      else first + Sep + JoinEntries(variant, ents[1..], fileHash, pickle)
  }

  /** `get_hash(*values)`: SHA-1 of `gh` applied to the argument tuple. */
  function GetHash(variant: Variant, sha1: string -> string, values: seq<Value>,
                   fileHash: string -> string, pickle: Value -> string): string
  {
    sha1(Encode(variant, Iterable(values), fileHash, pickle))
  }

  /** The paths whose file hash `gh(v)` asks for, in the order it asks. */
  function FilePaths(variant: Variant, v: Value): seq<string>
    decreases v
  {
    match v
    case FileNode(p, _) => [p]
    case Hashable(_) => []
    case HashableGroup(_, es) => if variant == MemPackage then [] else FilePathsAll(variant, es)
    case ModuleRef(f) => [f]
    case Dict(ents) => FilePathsEntries(variant, ents)
    case Iterable(es) => FilePathsAll(variant, es)
    case CodeRef(_, _, f) => if variant == MemPackage then [f] else []
    case AutoHashable(attrs) => if variant == MemPackage then FilePathsAll(variant, attrs) else []
    case Builtin(_) => []
    case Opaque(_) => []
  }

  function FilePathsAll(variant: Variant, es: seq<Value>): seq<string>
    decreases es
  {
    if |es| == 0 then [] else FilePaths(variant, es[0]) + FilePathsAll(variant, es[1..])
  }

  function FilePathsEntries(variant: Variant, ents: seq<Entry>): seq<string>
    decreases ents
  {
    if |ents| == 0 then []
    else
      assert ents[0].key < ents[0] && ents[0].val < ents[0];
      FilePaths(variant, ents[0].key) + FilePaths(variant, ents[0].val) + FilePathsEntries(variant, ents[1..])
  }

  /** Two file-hash functions that agree on every path p. */
  ghost predicate AgreeOn(paths: seq<string>, fh1: string -> string, fh2: string -> string) {
    forall p :: p in paths ==> fh1(p) == fh2(p)
  }

  /** The pre-image depends on the file system only through the hashes of
      the files `FilePaths` lists: this is what makes a key computed with a
      partly filled hash memo equal to one computed with a fuller memo. */
  lemma {:induction false} EncodeDependsOnlyOnFiles(variant: Variant, v: Value, fh1: string -> string,
                                                    fh2: string -> string, pickle: Value -> string)
    requires AgreeOn(FilePaths(variant, v), fh1, fh2)
    ensures Encode(variant, v, fh1, pickle) == Encode(variant, v, fh2, pickle)
    decreases v
  {
    match v
    case FileNode(p, _) =>
      assert p in FilePaths(variant, v);
    case Hashable(_) =>
    case HashableGroup(_, es) =>
      if variant == UnderscorePackage {
        JoinAllDependsOnlyOnFiles(variant, es, fh1, fh2, pickle);
      }
    case ModuleRef(f) =>
      assert f in FilePaths(variant, v);
    case Dict(ents) =>
      JoinEntriesDependsOnlyOnFiles(variant, ents, fh1, fh2, pickle);
    case Iterable(es) =>
      JoinAllDependsOnlyOnFiles(variant, es, fh1, fh2, pickle);
    case CodeRef(_, _, f) =>
      if variant == MemPackage {
        assert f in FilePaths(variant, v);
      }
    case AutoHashable(attrs) =>
      if variant == MemPackage {
        JoinAllDependsOnlyOnFiles(variant, attrs, fh1, fh2, pickle);
      }
    case Builtin(_) =>
    case Opaque(_) =>
  }

  lemma {:induction false} JoinAllDependsOnlyOnFiles(variant: Variant, es: seq<Value>, fh1: string -> string,
                                                    fh2: string -> string, pickle: Value -> string)
    requires AgreeOn(FilePathsAll(variant, es), fh1, fh2)
    ensures JoinAll(variant, es, fh1, pickle) == JoinAll(variant, es, fh2, pickle)
    decreases es
  {
    if |es| > 0 {
      EncodeDependsOnlyOnFiles(variant, es[0], fh1, fh2, pickle);
      JoinAllDependsOnlyOnFiles(variant, es[1..], fh1, fh2, pickle);
    }
  }

  lemma {:induction false} JoinEntriesDependsOnlyOnFiles(variant: Variant, ents: seq<Entry>, fh1: string -> string,
                                                        fh2: string -> string, pickle: Value -> string)
    requires AgreeOn(FilePathsEntries(variant, ents), fh1, fh2)
    ensures JoinEntries(variant, ents, fh1, pickle) == JoinEntries(variant, ents, fh2, pickle)
    decreases ents
  {
    if |ents| > 0 {
      assert ents[0].key < ents[0] && ents[0].val < ents[0];
      EncodeDependsOnlyOnFiles(variant, ents[0].key, fh1, fh2, pickle);
      EncodeDependsOnlyOnFiles(variant, ents[0].val, fh1, fh2, pickle);
      JoinEntriesDependsOnlyOnFiles(variant, ents[1..], fh1, fh2, pickle);
    }
  }

  /** A non-dict iterable is framed by "\1" on both sides. */
  lemma IterableFramed(variant: Variant, es: seq<Value>, fh: string -> string, pickle: Value -> string)
    ensures var s := Encode(variant, Iterable(es), fh, pickle);
      |s| >= 2 && s[0] == 1 as char && s[|s| - 1] == 1 as char
  {
  }

  /** A one-element container encodes to its element wrapped in "\1" tags:
      two characters longer, so the container and its element never share
      a pre-image. */
  lemma OneElementDiffers(variant: Variant, x: Value, fh: string -> string, pickle: Value -> string)
    ensures Encode(variant, Iterable([x]), fh, pickle) == Open + Encode(variant, x, fh, pickle) + Open
    ensures |Encode(variant, Iterable([x]), fh, pickle)| == |Encode(variant, x, fh, pickle)| + 2
    ensures Encode(variant, Iterable([x]), fh, pickle) != Encode(variant, x, fh, pickle)
  {
  }

  /** In mem/_mem.py an object with its own get_hash is delegated to even
      when it is iterable; mem_/__init__.py tries iteration first. */
  lemma DelegationOrder(h: string, es: seq<Value>, fh: string -> string, pickle: Value -> string)
    ensures Encode(MemPackage, HashableGroup(h, es), fh, pickle) == h
    ensures Encode(UnderscorePackage, HashableGroup(h, es), fh, pickle)
         == Encode(UnderscorePackage, Iterable(es), fh, pickle)
  {
  }

  /** mem/_mem.py encodes a function, class or method as "\4" name "\0"
      module "\0" followed by the hash of the module's source file; so a
      change to that file changes the pre-image. */
  lemma CodeRefTracksSource(name: string, modName: string, file: string,
                            fh1: string -> string, fh2: string -> string, pickle: Value -> string)
    requires fh1(file) != fh2(file)
    ensures Encode(MemPackage, CodeRef(name, modName, file), fh1, pickle)
         == CodeTag + name + Sep + modName + Sep + fh1(file)
    ensures Encode(MemPackage, CodeRef(name, modName, file), fh1, pickle)
         != Encode(MemPackage, CodeRef(name, modName, file), fh2, pickle)
  {
    var pre := CodeTag + name + Sep + modName + Sep;
    var s1 := pre + fh1(file);
    var s2 := pre + fh2(file);
    assert s1[|pre|..] == fh1(file);
    assert s2[|pre|..] == fh2(file);
  }

  /** A dict is encoded in the order it is iterated: the same two entries
      iterated the other way round give a different pre-image. */
  lemma DictOrderMatters(variant: Variant, fh: string -> string, pickle: Value -> string)
    requires pickle(Opaque("a")) == "a" && pickle(Opaque("b")) == "b"
    ensures Encode(variant, Dict([Entry(Opaque("a"), Opaque("a")), Entry(Opaque("b"), Opaque("b"))]), fh, pickle)
         != Encode(variant, Dict([Entry(Opaque("b"), Opaque("b")), Entry(Opaque("a"), Opaque("a"))]), fh, pickle)
  {
    var d1 := Encode(variant, Dict([Entry(Opaque("a"), Opaque("a")), Entry(Opaque("b"), Opaque("b"))]), fh, pickle);
    var d2 := Encode(variant, Dict([Entry(Opaque("b"), Opaque("b")), Entry(Opaque("a"), Opaque("a"))]), fh, pickle);
    assert d1[1] == 'a';
    assert d2[1] == 'b';
  }
}
