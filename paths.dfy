/**
 * Absolute filesystem paths as sequences of name segments, with the parts
 * of java.nio.file.Path the plugin uses: `toString`, `relativize` and
 * `resolve`. A relative path is a sequence of segments as well; the empty
 * sequence is Java's empty path.
 */
module Paths {
  import opened JavaString

  type Path = seq<string>

  /** The separator-joined names, each preceded by `/`. */
  function Slashed(p: Path): (s: string)
    ensures p != [] ==> EndsWith(s, "/" + p[|p| - 1])
  {
    if p == [] then ""
    else Slashed(p[..|p| - 1]) + "/" + p[|p| - 1]
  }

  /** `Path.toString()` of an absolute path; the root alone is `/`. */
  function PathString(p: Path): (s: string)
  {
    if p == [] then "/" else Slashed(p)
  }

  /** `root` is an ancestor of (or equal to) `p`. */
  predicate IsUnder(root: Path, p: Path)
  {
    root <= p
  }

  /** The number of leading segments that `a` and `b` share. */
  function CommonPrefixLength(a: Path, b: Path): (k: nat)
    ensures k <= |a| && k <= |b|
    ensures a[..k] == b[..k]
    ensures k < |a| && k < |b| ==> a[k] != b[k]
  {
    if a == [] || b == [] || a[0] != b[0] then 0
    else
      var k := CommonPrefixLength(a[1..], b[1..]);
      assert a[..k + 1] == [a[0]] + a[1..][..k];
      assert b[..k + 1] == [b[0]] + b[1..][..k];
      k + 1
  }

  function Parents(n: nat): (r: Path)
    ensures |r| == n && forall k :: 0 <= k < n ==> r[k] == ".."
  {
    if n == 0 then [] else Parents(n - 1) + [".."]
  }

  /**
   * `base.relativize(p)`: climb out of `base` to the segments it shares
   * with `p`, then descend along the rest of `p`.
   */
  function Relativize(base: Path, p: Path): (rel: Path)
  {
    var k := CommonPrefixLength(base, p);
    Parents(|base| - k) + p[k..]
  }

  /** `base.resolve(rel)` for a relative `rel`; an empty `rel` gives `base`. */
  function Resolve(base: Path, rel: Path): (p: Path)
  {
    base + rel
  }

  /** Relativizing a descendant yields the segments below the ancestor. */
  lemma RelativizeUnder(base: Path, r: Path)
    ensures Relativize(base, base + r) == r
  {
    assert (base + r)[|base|..] == r;
  }

  /** Resolving what `relativize` produced for a descendant gives the descendant back. */
  lemma ResolveRelativize(base: Path, p: Path)
    requires IsUnder(base, p)
    ensures Resolve(base, Relativize(base, p)) == p
  {
    assert p == base + p[|base|..];
    RelativizeUnder(base, p[|base|..]);
  }

  /**
   * Filtering on the text of a path by a suffix without `/` is filtering on
   * its last name: the suffix can never reach back across a separator.
   */
  lemma {:induction false} PathStringEndsWith(p: Path, suffix: string)
    requires suffix != [] && '/' !in suffix
    ensures EndsWith(PathString(p), suffix) <==> p != [] && EndsWith(p[|p| - 1], suffix)
  {
    if p == [] {
      assert !EndsWith("/", suffix);
    } else {
      var last := p[|p| - 1];
      var s := Slashed(p);
      var init := Slashed(p[..|p| - 1]);
      assert s == init + "/" + last;
      if |suffix| <= |last| {
        assert s[|s| - |suffix|..] == last[|last| - |suffix|..];
      } else if |suffix| <= |s| {
        var w := s[|s| - |suffix|..];
        assert w[|suffix| - |last| - 1] == s[|s| - |last| - 1] == '/';
        assert w != suffix;
      }
    }
  }
}
