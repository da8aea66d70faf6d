/**
 The POSIX path string operations the script relies on (`str.rfind`,
 `os.path.splitext`, `os.path.join` and the substring test `in`), over
 strings with `/` as the separator, together with `os.path.basename`, which
 states where a destination's file name sits.
 */
module Paths {

  const Sep: char := '/'
  const ExtSep: char := '.'

  /** `s.rfind(c)`: the last position of `c` in `s`, or -1. */
  function LastIndex(s: string, c: char): (r: int)
    ensures -1 <= r < |s|
    ensures r >= 0 ==> s[r] == c
    ensures forall k :: r < k < |s| ==> s[k] != c
  {
    LastIndexBelow(s, c, |s|)
  }

  /** The last position of `c` in `s[..n]`, or -1. */
  function LastIndexBelow(s: string, c: char, n: nat): (r: int)
    requires n <= |s|
    ensures -1 <= r < n
    ensures r >= 0 ==> s[r] == c
    ensures forall k :: r < k < n ==> s[k] != c
  {
    if n == 0 then -1
    else if s[n - 1] == c then n - 1
    else LastIndexBelow(s, c, n - 1)
  }

  /** Appending text without `c` leaves the last position of `c` where it was. */
  lemma LastIndexAppend(s: string, t: string, c: char)
    requires c !in t
    ensures LastIndex(s + t, c) == LastIndex(s, c)
  {
    assert forall k :: |s| <= k < |s + t| ==> (s + t)[k] == t[k - |s|];
    assert forall k :: 0 <= k < |s| ==> (s + t)[k] == s[k];
  }

  /** `os.path.basename`: the text after the last separator. */
  function Basename(p: string): string
  {
    p[LastIndex(p, Sep) + 1..]
  }

  /** Every character of `p[lo..hi]` is a dot. */
  predicate DotsBetween(p: string, lo: int, hi: int)
    requires 0 <= lo && hi <= |p|
  {
    forall i :: lo <= i < hi ==> p[i] == ExtSep
  }

  /** An extension as `splitext` returns it: empty, or a dot followed by neither dot nor separator. */
  predicate IsExtension(e: string)
  {
    e == [] || (e[0] == ExtSep && forall i :: 1 <= i < |e| ==> e[i] != ExtSep && e[i] != Sep)
  }

  /**
   A path whose last component has no extension: every dot in that
   component is one of its leading dots.
   */
  predicate NoExtension(p: string)
  {
    var s := LastIndex(p, Sep);
    forall i, d :: s < i < d < |p| && p[d] == ExtSep ==> p[i] == ExtSep
  }

  /** A path whose last component is not made of dots alone. */
  predicate NamedLast(p: string)
  {
    exists k :: LastIndex(p, Sep) < k < |p| && p[k] != ExtSep
  }

  /**
   `os.path.splitext` on POSIX: the extension starts at the last dot, if that
   dot lies after the last separator and is not one of the leading dots of the
   last component.
   */
  function SplitExt(p: string): (r: (string, string))
    ensures r.0 + r.1 == p
    ensures IsExtension(r.1)
    ensures r.1 != [] ==> NamedLast(r.0)
    ensures r.1 == [] <==> NoExtension(p)
  {
    var sepIndex := LastIndex(p, Sep);
    var dotIndex := LastIndex(p, ExtSep);
    if dotIndex > sepIndex && !DotsBetween(p, sepIndex + 1, dotIndex) then
      ExtensionAtLastDot(p, sepIndex, dotIndex);
      StemAtLastDot(p, sepIndex, dotIndex);
      (p[..dotIndex], p[dotIndex..])
    else
      (p, [])
  }

  /** What follows the last dot holds neither a dot nor a separator. */
  lemma ExtensionAtLastDot(p: string, sepIndex: int, dotIndex: int)
    requires sepIndex == LastIndex(p, Sep) && dotIndex == LastIndex(p, ExtSep)
    requires dotIndex > sepIndex
    ensures p[dotIndex..] != [] && IsExtension(p[dotIndex..])
  {
    var e := p[dotIndex..];
    forall i | 1 <= i < |e|
      ensures e[i] != ExtSep && e[i] != Sep
    {
      assert e[i] == p[dotIndex + i];
    }
  }

  /** Cutting at a dot after the last separator keeps that separator last. */
  lemma StemAtLastDot(p: string, sepIndex: int, dotIndex: int)
    requires sepIndex == LastIndex(p, Sep) && dotIndex == LastIndex(p, ExtSep)
    requires dotIndex > sepIndex
    ensures LastIndex(p[..dotIndex], Sep) == sepIndex
  {
    var root, ext := p[..dotIndex], p[dotIndex..];
    assert root + ext == p;
    assert Sep !in ext by {
      forall i | 0 <= i < |ext|
        ensures ext[i] != Sep
      {
        assert ext[i] == p[dotIndex + i];
      }
    }
    LastIndexAppend(root, ext, Sep);
  }

  /** Splitting a stem and an extension joined together gives them back. */
  lemma SplitExtJoin(root: string, ext: string)
    requires ext != [] && IsExtension(ext)
    requires NamedLast(root)
    ensures SplitExt(root + ext) == (root, ext)
  {
    var p := root + ext;
    assert Sep !in ext by {
      forall i | 0 <= i < |ext|
        ensures ext[i] != Sep
      {
      }
    }
    LastIndexAppend(root, ext, Sep);
    assert p[|root|] == ExtSep;
    assert forall k :: |root| < k < |p| ==> p[k] == ext[k - |root|];
    assert LastIndex(p, ExtSep) == |root|;
    var k :| LastIndex(root, Sep) < k < |root| && root[k] != ExtSep;
    assert p[k] != ExtSep;
  }

  /** `os.path.join(a, b)` on POSIX. */
  function Join(a: string, b: string): string
  {
    if |b| > 0 && b[0] == Sep then b
    else if a == [] || a[|a| - 1] == Sep then a + b
    else a + [Sep] + b
  }

  /** Python's `needle in hay` for strings. */
  ghost predicate IsSubstring(needle: string, hay: string)
  {
    exists i :: 0 <= i <= |hay| && needle <= hay[i..]
  }

  function Contains(hay: string, needle: string): (r: bool)
    ensures r <==> IsSubstring(needle, hay)
  {
    if needle <= hay then
      assert needle <= hay[0..];
      true
    else if hay == [] then
      false
    else
      var r := Contains(hay[1..], needle);
      assert r ==> IsSubstring(needle, hay) by {
        if r {
          var i :| 0 <= i <= |hay[1..]| && needle <= hay[1..][i..];
          assert hay[1..][i..] == hay[i + 1..];
        }
      }
      assert IsSubstring(needle, hay) ==> r by {
        if IsSubstring(needle, hay) {
          var i :| 0 <= i <= |hay| && needle <= hay[i..];
          assert i > 0;
          assert hay[1..][i - 1..] == hay[i..];
        }
      }
      r
  }
}
