/**
 * The few operations of java.lang.String that the transcoder relies on,
 * modelled over `string` (a sequence of characters).
 */
module JavaString {

  /** `String.trim()` treats every character whose code is at most U+0020 as space. */
  predicate IsSpace(c: char)
  {
    c <= ' '
  }

  predicate AllSpace(s: string)
  {
    forall k :: 0 <= k < |s| ==> IsSpace(s[k])
  }

  /** What `trim()` leaves behind: nothing to strip at either end. */
  predicate Trimmed(s: string)
  {
    s == [] || (!IsSpace(s[0]) && !IsSpace(s[|s| - 1]))
  }

  /** `s` is `t` preceded by `i` spaces and followed by spaces only. */
  predicate PaddedAt(s: string, t: string, i: int)
  {
    0 <= i <= |s| - |t| && t == s[i..i + |t|] && AllSpace(s[..i]) && AllSpace(s[i + |t|..])
  }

  /** `s.startsWith(prefix)` */
  predicate StartsWith(s: string, prefix: string)
  {
    |prefix| <= |s| && s[..|prefix|] == prefix
  }

  /** `s.endsWith(suffix)` */
  predicate EndsWith(s: string, suffix: string)
  {
    |suffix| <= |s| && s[|s| - |suffix|..] == suffix
  }

  /** `s.indexOf(c)`: the first position of `c`, or -1 when `c` does not occur. */
  function IndexOf(s: string, c: char): (i: int)
    ensures -1 <= i < |s|
    ensures i == -1 <==> c !in s
    ensures 0 <= i ==> s[i] == c && c !in s[..i]
  {
    if s == [] then -1
    else if s[0] == c then 0
    else
      var j := IndexOf(s[1..], c);
      if j == -1 then -1 else j + 1
  }

  /**
   * `s.split(c, 2)` for a character `c` that is not a regular-expression
   * metacharacter: at most one split, at the first occurrence of `c`; the
   * second part keeps every later `c`, and either part may be empty.
   */
  function SplitFirst(s: string, c: char): (parts: seq<string>)
    ensures c !in s ==> parts == [s]
    ensures c in s ==> |parts| == 2 && s == parts[0] + [c] + parts[1] && c !in parts[0]
  {
    var i := IndexOf(s, c);
    if i == -1 then [s]
    else
      assert s == s[..i] + [c] + s[i + 1..];
      [s[..i], s[i + 1..]]
  }

  /** Splitting at the first `c` of `a + [c] + b`, where `a` holds no `c`, recovers `a` and `b`. */
  lemma SplitFirstOf(a: string, c: char, b: string)
    requires c !in a
    ensures SplitFirst(a + [c] + b, c) == [a, b]
  {
    var s := a + [c] + b;
    assert s[|a|] == c;
    var parts := SplitFirst(s, c);
    assert parts[0] == a;
    assert parts[1] == s[|a| + 1..] == b;
  }

  /** The leading spaces removed. */
  function TrimStart(s: string): (r: string)
    ensures |r| <= |s| && r == s[|s| - |r|..]
    ensures AllSpace(s[..|s| - |r|])
    ensures r == [] || !IsSpace(r[0])
  {
    if s != [] && IsSpace(s[0]) then
      var r := TrimStart(s[1..]);
      assert s[..|s| - |r|] == [s[0]] + s[1..][..|s| - 1 - |r|];
      r
    else s
  }

  /** The trailing spaces removed. */
  function TrimEnd(s: string): (r: string)
    ensures |r| <= |s| && r == s[..|r|]
    ensures AllSpace(s[|r|..])
    ensures r == [] || !IsSpace(r[|r| - 1])
  {
    if s != [] && IsSpace(s[|s| - 1]) then
      var r := TrimEnd(s[..|s| - 1]);
      assert s[|r|..] == s[..|s| - 1][|r|..] + [s[|s| - 1]];
      r
    else s
  }

  /**
   * `s.trim()`: strips the spaces at both ends and keeps every other
   * character, each as often as it occurs in `s` (and, by `TrimInfix`, in
   * the same order).
   */
  function Trim(s: string): (r: string)
    ensures Trimmed(r)
    ensures |r| <= |s| && multiset(r) <= multiset(s)
    ensures forall c :: !IsSpace(c) ==> multiset(r)[c] == multiset(s)[c]
  {
    TrimStartThenEnd(s);
    TrimEnd(TrimStart(s))
  }

  lemma TrimStartThenEnd(s: string)
    ensures var r := TrimEnd(TrimStart(s));
      && Trimmed(r)
      && |r| <= |s| && multiset(r) <= multiset(s)
      && forall c :: !IsSpace(c) ==> multiset(r)[c] == multiset(s)[c]
  {
    var u := TrimStart(s);
    var r := TrimEnd(u);
    TrimEndKeepsStart(u);
    SplitAt(s, |s| - |u|);
    SplitAt(u, |r|);
    KeepsNonSpace(s[..|s| - |u|], r, u[|r|..], s);
  }

  /** `trim()` keeps an infix of `s`, in order, with only spaces cut at either end. */
  lemma TrimInfix(s: string)
    ensures exists i :: PaddedAt(s, Trim(s), i)
  {
    var u := TrimStart(s);
    var r := TrimEnd(u);
    var i := |s| - |u|;
    assert u == s[i..];
    assert r == s[i..i + |r|] && s[i + |r|..] == u[|r|..];
    assert PaddedAt(s, r, i);
    assert Trim(s) == r;
  }

  lemma SplitAt(s: string, k: nat)
    requires k <= |s|
    ensures s == s[..k] + s[k..]
  {
  }

  /** Trimming the end of a text that starts with a non-space leaves that start. */
  lemma TrimEndKeepsStart(u: string)
    requires u == [] || !IsSpace(u[0])
    ensures Trimmed(TrimEnd(u))
  {
    var r := TrimEnd(u);
    if r != [] {
      assert r[0] == u[0];
    }
  }

  /** Surrounding spaces add nothing to the count of any other character. */
  lemma KeepsNonSpace(a: string, r: string, b: string, s: string)
    requires AllSpace(a) && AllSpace(b) && s == a + (r + b)
    ensures multiset(r) <= multiset(s)
    ensures forall c :: !IsSpace(c) ==> multiset(r)[c] == multiset(s)[c]
  {
    assert multiset(s) == multiset(a) + (multiset(r) + multiset(b));
    SpacesHoldNoOther(a);
    SpacesHoldNoOther(b);
  }

  lemma SpacesHoldNoOther(a: string)
    requires AllSpace(a)
    ensures forall c :: !IsSpace(c) ==> multiset(a)[c] == 0
  {
    assert forall c :: !IsSpace(c) ==> c !in a;
  }

  lemma {:induction false} TrimStartOfSpaces(a: string, u: string)
    requires AllSpace(a)
    requires u == [] || !IsSpace(u[0])
    ensures TrimStart(a + u) == u
  {
    if a != [] {
      assert (a + u)[1..] == a[1..] + u;
      TrimStartOfSpaces(a[1..], u);
    }
  }

  lemma {:induction false} TrimEndOfSpaces(u: string, b: string)
    requires AllSpace(b)
    requires u == [] || !IsSpace(u[|u| - 1])
    ensures TrimEnd(u + b) == u
  {
    if b != [] {
      assert (u + b)[..|u + b| - 1] == u + b[..|b| - 1];
      TrimEndOfSpaces(u, b[..|b| - 1]);
    }
  }

  /**
   * `trim()` is determined by what it keeps: a trimmed text surrounded by
   * spaces trims to exactly that text.
   */
  lemma TrimExact(a: string, t: string, b: string)
    requires AllSpace(a) && AllSpace(b) && Trimmed(t)
    ensures Trim(a + t + b) == t
  {
    if t == [] {
      assert AllSpace(a + b);
      assert a + t + b == (a + b) + [];
      TrimStartOfSpaces(a + b, []);
    } else {
      assert a + t + b == a + (t + b);
      TrimStartOfSpaces(a, t + b);
      TrimEndOfSpaces(t, b);
    }
  }

  /** A text with nothing to strip is its own trim. */
  lemma TrimTrimmed(t: string)
    requires Trimmed(t)
    ensures Trim(t) == t
  {
    assert [] + t + [] == t;
    TrimExact([], t, []);
  }

  /** Trimming twice is trimming once. */
  lemma TrimIdempotent(s: string)
    ensures Trim(Trim(s)) == Trim(s)
  {
    TrimTrimmed(Trim(s));
  }
}
