/**
 * The string operations of Python 2 that the build engine leans on:
 * slicing with clamped bounds, `str.rfind`, and the POSIX flavour of
 * `os.path.join`, `dirname`, `basename` and `splitext`. Python 2 byte
 * strings are modelled as `string`.
 */
module Paths {

  /** `s[:n]` for n >= 0: Python clamps the bound to the length. */
  function Take(s: string, n: nat): (r: string)
    ensures |r| == if n <= |s| then n else |s|
    ensures r <= s
  {
    if n <= |s| then s[..n] else s
  }

  /** `s[n:]` for n >= 0. */
  function Drop(s: string, n: nat): (r: string)
    ensures Take(s, n) + r == s
  {
    if n <= |s| then s[n..] else ""
  }

  /** `s[-n:]` for n > 0: the last n characters, or all of s when it is shorter. */
  function TakeLast(s: string, n: nat): (r: string)
    ensures |r| == if n <= |s| then n else |s|
    ensures s == s[..|s| - |r|] + r
  {
    if n <= |s| then s[|s| - n..] else s
  }

  /** `s.rfind(c)`: the index of the last occurrence of c, or -1. */
  function RFind(s: string, c: char): (i: int)
    ensures -1 <= i < |s|
    ensures i >= 0 ==> s[i] == c
    ensures forall j :: i < j < |s| ==> s[j] != c
  {
    if |s| == 0 then -1
    else if s[|s| - 1] == c then |s| - 1
    else RFind(s[..|s| - 1], c)
  }

  /** Characters appended after the last c do not move it. */
  lemma RFindAppend(a: string, b: string, c: char)
    requires forall k :: 0 <= k < |b| ==> b[k] != c
    ensures RFind(a + b, c) == RFind(a, c)
  {
    assert forall k :: 0 <= k < |a| ==> (a + b)[k] == a[k];
    assert forall k :: |a| <= k < |a + b| ==> (a + b)[k] == b[k - |a|];
  }

  /** `str.find(needle) != -1`: needle occurs in s as a contiguous piece. */
  predicate Contains(s: string, needle: string) {
    needle <= s || (|s| > 0 && Contains(s[1..], needle))
  }

  /** Contains agrees with the plain definition: some suffix of s starts
      with needle. */
  lemma {:induction false} ContainsIff(s: string, needle: string)
    ensures Contains(s, needle) <==> exists i :: 0 <= i <= |s| && needle <= s[i..]
  {
    if needle <= s {
      assert needle <= s[0..];
    } else if |s| > 0 {
      ContainsIff(s[1..], needle);
      if Contains(s[1..], needle) {
        var i :| 0 <= i <= |s| - 1 && needle <= s[1..][i..];
        assert s[1..][i..] == s[i + 1..];
      }
      if exists i :: 0 <= i <= |s| && needle <= s[i..] {
        var i :| 0 <= i <= |s| && needle <= s[i..];
        assert i > 0;
        assert s[1..][i - 1..] == s[i..];
      }
    }
  }

  /** `os.path.join(a, b)` (posixpath): an absolute b replaces a. */
  function Join(a: string, b: string): (r: string)
    ensures |b| > 0 && b[0] == '/' ==> r == b
    ensures (|b| == 0 || b[0] != '/') ==> r == JoinPrefix(a) + b
  {
    if |b| > 0 && b[0] == '/' then b
    else if a == "" || a[|a| - 1] == '/' then a + b
    else a + "/" + b
  }

  /** What `Join(a, b)` puts in front of a relative b. */
  function JoinPrefix(a: string): string {
    if a == "" || a[|a| - 1] == '/' then a else a + "/"
  }

  function StripTrailingSlashes(s: string): (r: string)
    ensures r <= s
  {
    if |s| > 0 && s[|s| - 1] == '/' then StripTrailingSlashes(s[..|s| - 1]) else s
  }

  predicate AllSlashes(s: string) {
    forall k :: 0 <= k < |s| ==> s[k] == '/'
  }

  /** `os.path.dirname(p)`: everything up to the last '/', trailing slashes
      removed unless the head is nothing but slashes. */
  function Dirname(p: string): (r: string)
    ensures r <= p
  {
    var head := p[..RFind(p, '/') + 1];
    if head != "" && !AllSlashes(head) then StripTrailingSlashes(head) else head
  }

  /** `os.path.basename(p)`: everything after the last '/'. */
  function Basename(p: string): (r: string)
    ensures '/' !in r
  {
    p[RFind(p, '/') + 1..]
  }

  /** Some character in p[lo..hi] is not a dot. */
  predicate HasNonDot(p: string, lo: int, hi: int)
    requires 0 <= lo && hi <= |p|
  {
    exists k :: lo <= k < hi && p[k] != '.'
  }

  /** `os.path.splitext(p)`: the extension runs from the last dot of the
      last path component, provided that dot is not part of the
      component's leading dots; otherwise the extension is empty. */
  function SplitExt(p: string): (r: (string, string))
    ensures r.0 + r.1 == p
    ensures r.1 == "" || (r.1[0] == '.' && '/' !in r.1)
  {
    var sep := RFind(p, '/');
    var dot := RFind(p, '.');
    if dot > sep && HasNonDot(p, sep + 1, dot) then (p[..dot], p[dot..]) else (p, "")
  }

  /** Appending an extension to a name whose last component has a
      character other than a dot splits back into the name and the
      extension. */
  lemma SplitExtAppend(stem: string, ext: string)
    requires |ext| > 0 && ext[0] == '.'
    requires forall k :: 0 < k < |ext| ==> ext[k] != '.' && ext[k] != '/'
    requires HasNonDot(stem, RFind(stem, '/') + 1, |stem|)
    ensures SplitExt(stem + ext) == (stem, ext)
  {
    var t := stem + ext;
    RFindAppend(stem, ext, '/');
    LastDotAt(stem, ext);
    var k :| RFind(stem, '/') + 1 <= k < |stem| && stem[k] != '.';
    assert t[k] == stem[k];
    assert t[..|stem|] == stem && t[|stem|..] == ext;
  }

  /** The last dot of `stem + ext` is the one that starts ext. */
  lemma LastDotAt(stem: string, ext: string)
    requires |ext| > 0 && ext[0] == '.'
    requires forall k :: 0 < k < |ext| ==> ext[k] != '.'
    ensures RFind(stem + ext, '.') == |stem|
  {
    var t := stem + ext;
    assert t[|stem|] == '.';
    assert forall k :: |stem| < k < |t| ==> t[k] == ext[k - |stem|];
  }

  /** `str.lower()` on an ASCII byte string. */
  function Lower(s: string): (r: string)
    ensures |r| == |s|
    ensures forall i :: 0 <= i < |s| ==> r[i] == LowerChar(s[i])
  {
    if s == [] then [] else [LowerChar(s[0])] + Lower(s[1..])
  }

  function LowerChar(c: char): char {
    if 'A' <= c <= 'Z' then (c as int + 32) as char else c
  }

  /** `"%d" % n` for a natural number. */
  function Decimal(n: nat): (r: string)
    ensures |r| > 0 && AllDigits(r)
    ensures Value(r) == n
    ensures r[0] == '0' ==> r == "0"
    decreases n
  {
    if n < 10 then [Digit(n)]
    else
      var a := Decimal(n / 10);
      var r := a + [Digit(n % 10)];
      assert r[..|r| - 1] == a;
      r
  }

  function Digit(d: nat): (c: char)
    requires d < 10
    ensures '0' <= c <= '9' && c as int - '0' as int == d
  {
    "0123456789"[d]
  }

  predicate AllDigits(s: string) {
    forall k :: 0 <= k < |s| ==> '0' <= s[k] <= '9'
  }

  /** The number a string of decimal digits spells. */
  function Value(s: string): nat
    requires AllDigits(s)
  {
    if s == [] then 0 else 10 * Value(s[..|s| - 1]) + (s[|s| - 1] as int - '0' as int)
  }

  /** Two numbers with the same `%d` spelling are equal, so the size and
      the mode can be read back from a blob header. */
  lemma DecimalInjective(m: nat, n: nat)
    requires Decimal(m) == Decimal(n)
    ensures m == n
  {
  }

  /** A SHA-1 `hexdigest()`: forty lower-case hexadecimal digits. */
  predicate IsHexDigest(h: string) {
    |h| == 40 && forall k :: 0 <= k < |h| ==> h[k] in "0123456789abcdef"
  }

  /** The two-level shard `os.path.join(dir, h[:2], h[2:])` under which the
      caches and the blob store keep the record for hash h. */
  function Shard(dir: string, h: string): string {
    Join(Join(dir, Take(h, 2)), Drop(h, 2))
  }

  lemma ShardForm(dir: string, h: string)
    requires IsHexDigest(h)
    ensures Shard(dir, h) == JoinPrefix(dir) + h[..2] + "/" + h[2..]
  {
    assert h[0] in "0123456789abcdef";
    assert h[2] in "0123456789abcdef";
    var a := Join(dir, h[..2]);
    assert a == JoinPrefix(dir) + h[..2];
    assert a[|a| - 1] == h[1];
    assert h[1] in "0123456789abcdef";
  }

  /** Distinct digests never share a shard path, so one record can never
      overwrite the record of another hash. */
  lemma ShardInjective(dir: string, h1: string, h2: string)
    requires IsHexDigest(h1) && IsHexDigest(h2)
    requires Shard(dir, h1) == Shard(dir, h2)
    ensures h1 == h2
  {
    ShardForm(dir, h1);
    ShardForm(dir, h2);
    var p := JoinPrefix(dir);
    var s1 := p + h1[..2] + "/" + h1[2..];
    var s2 := p + h2[..2] + "/" + h2[2..];
    forall k | 0 <= k < 40 ensures h1[k] == h2[k] {
      if k < 2 {
        assert s1[|p| + k] == h1[k];
        assert s2[|p| + k] == h2[k];
      } else {
        assert s1[|p| + k + 1] == h1[k];
        assert s2[|p| + k + 1] == h2[k];
      }
    }
  }
}
