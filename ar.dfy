/**
 * The static-library rule of mem_/tasks/ar.py: `ar` turns a library name
 * into `<build dir>/<prefix><name><suffix>` and `t_ar` builds the archiver
 * command and records the sources as dependencies. Running the archiver
 * is not modelled.
 */
module Ar {
  import opened Paths
  import Util

  /** `ar`'s defaults for LIBSUFFIX and LIBPREFIX. */
  const DefaultSuffix: string := ".a"
  const DefaultPrefix: string := "lib"

  /** s ends with suffix. */
  predicate EndsWith(s: string, suffix: string) {
    |suffix| <= |s| && s[|s| - |suffix|..] == suffix
  }

  /** The name normalisation as `ar` writes it: the suffix test compares
      the last two characters and the prefix test the first three, whatever
      the lengths of LIBSUFFIX and LIBPREFIX. */
  function NormaliseAsWritten(target: string, suffix: string, prefix: string): (r: string)
    ensures EndsWith(r, suffix) && prefix <= r
  {
    var t := if TakeLast(target, 2) == suffix then target else target + suffix;
    assert EndsWith(t, suffix);
    var r := if Take(t, 3) == prefix then t else prefix + t;
    assert r[|r| - |t|..] == t;
    r
  }

  /** The normalisation `ar` evidently intends: add the suffix unless the
      name ends with it, then the prefix unless the name starts with it. */
  function Normalise(target: string, suffix: string, prefix: string): (r: string)
    ensures EndsWith(r, suffix) && prefix <= r
  {
    var t := if EndsWith(target, suffix) then target else target + suffix;
    assert EndsWith(t, suffix);
    var r := if prefix <= t then t else prefix + t;
    assert r[|r| - |t|..] == t;
    r
  }

  /** The name is kept, with at most the prefix put in front and at most
      the suffix put behind, each only when it is missing. */
  lemma NormaliseShape(target: string, suffix: string, prefix: string)
    ensures var r := Normalise(target, suffix, prefix);
      exists p, s :: (p == "" || p == prefix) && (s == "" || s == suffix) && r == p + target + s
    ensures EndsWith(target, suffix) && prefix <= target ==> Normalise(target, suffix, prefix) == target
  {
    var t := if EndsWith(target, suffix) then target else target + suffix;
    var s := if EndsWith(target, suffix) then "" else suffix;
    var p := if prefix <= t then "" else prefix;
    assert t == target + s;
    assert Normalise(target, suffix, prefix) == p + target + s;
  }

  /** Normalising a normalised name changes nothing. */
  lemma NormaliseIdempotent(target: string, suffix: string, prefix: string)
    ensures Normalise(Normalise(target, suffix, prefix), suffix, prefix) == Normalise(target, suffix, prefix)
  {
    NormaliseShape(Normalise(target, suffix, prefix), suffix, prefix);
  }

  /** With a two-character suffix and a three-character prefix, such as the
      defaults, the code as written does what is intended. */
  lemma AsWrittenAgrees(target: string, suffix: string, prefix: string)
    requires |suffix| == 2 && |prefix| == 3
    ensures NormaliseAsWritten(target, suffix, prefix) == Normalise(target, suffix, prefix)
  {
    var t := if EndsWith(target, suffix) then target else target + suffix;
    assert TakeLast(target, 2) == suffix <==> EndsWith(target, suffix);
    assert Take(t, 3) == prefix <==> prefix <= t;
  }

  lemma DefaultsAgree(target: string)
    ensures NormaliseAsWritten(target, DefaultSuffix, DefaultPrefix) == Normalise(target, DefaultSuffix, DefaultPrefix)
  {
    AsWrittenAgrees(target, DefaultSuffix, DefaultPrefix);
  }

  /** With LIBSUFFIX ".so" the code as written appends the suffix to a name
      that already ends with it, where the intended normalisation keeps the
      name. */
  lemma AsWrittenDoublesSuffix()
    ensures NormaliseAsWritten("libfoo.so", ".so", "lib") == "libfoo.so.so"
    ensures Normalise("libfoo.so", ".so", "lib") == "libfoo.so"
  {
    assert TakeLast("libfoo.so", 2) == "so";
    assert Take("libfoo.so.so", 3) == "lib";
    assert EndsWith("libfoo.so", ".so");
    assert "lib" <= "libfoo.so";
  }

  /** So with LIBSUFFIX ".so" normalising twice as written is not
      normalising once. */
  lemma AsWrittenNotIdempotent()
    ensures NormaliseAsWritten(NormaliseAsWritten("foo", ".so", "lib"), ".so", "lib")
         != NormaliseAsWritten("foo", ".so", "lib")
  {
    assert TakeLast("foo", 2) == "oo";
    assert Take("foo.so", 3) == "foo";
    assert NormaliseAsWritten("foo", ".so", "lib") == "libfoo.so";
    AsWrittenDoublesSuffix();
  }

  /** `ar(target, sources, LIBSUFFIX, LIBPREFIX)`: the target handed to
      `t_ar`, the name normalised as the code is written and joined onto
      the build directory. */
  function ArTarget(buildDir: string, target: string, suffix: string, prefix: string): (r: string)
    ensures EndsWith(r, suffix)
  {
    var name := NormaliseAsWritten(target, suffix, prefix);
    var r := Join(buildDir, name);
    JoinEndsWith(buildDir, name);
    EndsWithTrans(r, name, suffix);
    r
  }

  /** The target `ar` evidently intends, with the corrected normalisation. */
  function ArTargetIntended(buildDir: string, target: string, suffix: string, prefix: string): (r: string)
    ensures EndsWith(r, suffix)
  {
    var name := Normalise(target, suffix, prefix);
    var r := Join(buildDir, name);
    JoinEndsWith(buildDir, name);
    EndsWithTrans(r, name, suffix);
    r
  }

  /** The two targets coincide for a two-character suffix and a
      three-character prefix, the defaults among them. */
  lemma ArTargetAgrees(buildDir: string, target: string, suffix: string, prefix: string)
    requires |suffix| == 2 && |prefix| == 3
    ensures ArTarget(buildDir, target, suffix, prefix) == ArTargetIntended(buildDir, target, suffix, prefix)
  {
    AsWrittenAgrees(target, suffix, prefix);
  }

  /** With LIBSUFFIX ".so", `ar("libfoo.so", ...)` hands `t_ar` a library
      named `libfoo.so.so`. */
  lemma ArTargetDoublesSuffix(buildDir: string)
    ensures ArTarget(buildDir, "libfoo.so", ".so", "lib") == JoinPrefix(buildDir) + "libfoo.so.so"
    ensures ArTargetIntended(buildDir, "libfoo.so", ".so", "lib") == JoinPrefix(buildDir) + "libfoo.so"
  {
    AsWrittenDoublesSuffix();
  }

  lemma JoinEndsWith(a: string, b: string)
    ensures EndsWith(Join(a, b), b)
  {
    var r := Join(a, b);
    assert r[|r| - |b|..] == b;
  }

  lemma EndsWithTrans(a: string, b: string, c: string)
    requires EndsWith(a, b) && EndsWith(b, c)
    ensures EndsWith(a, c)
  {
    assert a[|a| - |c|..] == a[|a| - |b|..][|b| - |c|..];
  }

  /** The library lands in the build directory under its normalised name
      whenever that name is relative, which a non-empty relative prefix
      such as the default guarantees. */
  lemma ArTargetInBuildDir(buildDir: string, target: string, suffix: string, prefix: string)
    requires |prefix| > 0 && prefix[0] != '/'
    ensures ArTarget(buildDir, target, suffix, prefix) == JoinPrefix(buildDir) + NormaliseAsWritten(target, suffix, prefix)
    ensures ArTargetIntended(buildDir, target, suffix, prefix) == JoinPrefix(buildDir) + Normalise(target, suffix, prefix)
  {
    var name := NormaliseAsWritten(target, suffix, prefix);
    assert name[0] == prefix[0];
    var name' := Normalise(target, suffix, prefix);
    assert name'[0] == prefix[0];
  }

  /** `t_ar`'s `sources`: a list, or a single source that it wraps. */
  datatype Sources<T> = Single(source: T) | List(sources: seq<T>)

  function AsList<T>(sources: Sources<T>): (r: seq<T>)
    ensures sources.List? ==> r == sources.sources
    ensures sources.Single? ==> r == [sources.source]
  {
    match sources
    case Single(x) => [x]
    case List(xs) => xs
  }

  /** What `t_ar(target, sources, ARARGS, ARCMD)` records as dependencies
      and the command it runs; `str` is Python's `str` on a source. */
  function TAr<T>(target: string, sources: Sources<T>, arArgs: seq<string>, arCmd: string, str: T -> string)
    : (r: (seq<T>, seq<string>))
    ensures r.0 == AsList(sources)
    ensures |r.1| == |arArgs| + 2 + |r.0|
    ensures r.1[0] == arCmd && r.1[1..|arArgs| + 1] == arArgs && r.1[|arArgs| + 1] == target
    ensures forall i :: 0 <= i < |r.0| ==> r.1[|arArgs| + 2 + i] == str(r.0[i])
  {
    var deps := AsList(sources);
    (deps, [arCmd] + arArgs + [target] + Util.ConvertCmd(deps, str))
  }
}
