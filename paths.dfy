/** The parts of Python's `posixpath` the plugin applies to file paths. */
module Paths {
  import opened Base
  import opened Strings

  /** Every character of `s[lo..hi]` is `c`. */
  predicate AllOf(s: string, lo: nat, hi: nat, c: char)
    requires lo <= hi <= |s|
  {
    forall j | lo <= j < hi :: s[j] == c
  }

  /** `os.path.split(p)`: the directory part, with trailing slashes removed unless it
      consists of slashes only, and the leaf after the last `/`. */
  function PathSplit(p: string): (r: (string, string))
    ensures |r.0| + |r.1| <= |p|
    ensures r.0 == p[..|r.0|] && r.1 == p[|p| - |r.1|..]
    ensures forall i :: |r.0| <= i < |p| - |r.1| ==> p[i] == '/'
    ensures forall i :: 0 <= i < |r.1| ==> r.1[i] != '/'
    ensures '/' in p ==> |r.1| < |p|
  {
    var cut := match LastIndexOf(p, '/') case None => 0 case Some(k) => k + 1;
    var head := p[..cut];
    var tail := p[cut..];
    assert forall i :: 0 <= i < |tail| ==> tail[i] == p[cut + i];
    TrimRightSpec(head, Chars({'/'}));
    if |head| > 0 && !AllOf(head, 0, |head|, '/') then (TrimRight(head, Chars({'/'})), tail)
    else (head, tail)
  }

  /** How many separators `os.path.split(p)` drops between the directory part and the leaf. */
  function SeparatorGap(p: string): nat {
    |p| - |PathSplit(p).0| - |PathSplit(p).1|
  }

  /** No separator is dropped exactly when the directory part is empty or consists of
      slashes only: a path without a `/`, or a file in the root directory. Otherwise the
      directory part does not end in a `/`, and every `/` before the leaf is dropped. The
      directory part is empty exactly when there is no `/` at all. */
  lemma {:induction false} PathSplitGap(p: string)
    ensures var base := PathSplit(p).0;
      && (SeparatorGap(p) == 0 <==> AllOf(base, 0, |base|, '/'))
      && (base == "" <==> '/' !in p)
  {
    var base := PathSplit(p).0;
    match LastIndexOf(p, '/')
    case None =>
    case Some(k) =>
      var head := p[..k + 1];
      assert head[k] == '/';
      TrimRightSpec(head, Chars({'/'}));
      if !AllOf(head, 0, |head|, '/') {
        var r := TrimRight(head, Chars({'/'}));
        var j :| 0 <= j < |head| && head[j] != '/';
        assert j < |r| && r[j] == head[j];
        assert r[|r| - 1] != '/';
      }
  }

  /** The characters of `p` from `lo` up to `hi` are all dots. */
  predicate LeadingDots(p: string, lo: nat, hi: nat)
    requires lo <= hi <= |p|
  {
    AllOf(p, lo, hi, '.')
  }

  /** `os.path.splitext(p)`: the root and the extension, which starts at the last dot of
      the leaf unless everything in the leaf before that dot is a dot too. */
  function SplitExt(p: string): (r: (string, string))
    ensures r.0 + r.1 == p
    ensures r.1 == [] || (r.1[0] == '.' && forall i :: 1 <= i < |r.1| ==> r.1[i] != '.' && r.1[i] != '/')
    ensures (forall i :: 0 <= i < |p| ==> p[i] != '.') ==> r.1 == []
  {
    var sepIndex: int := match LastIndexOf(p, '/') case None => -1 case Some(k) => k;
    match LastIndexOf(p, '.')
    case None => (p, "")
    case Some(dot) =>
      if dot > sepIndex && !LeadingDots(p, sepIndex + 1, dot) then
        assert p[..dot] + p[dot..] == p;
        (p[..dot], p[dot..])
      else (p, "")
  }
}
