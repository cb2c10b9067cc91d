/** What the scripts take from `fast-glob`: the files a pattern selects,
    in the order the walk lists them. The walk itself is a parameter (a
    list of paths relative to the search root); a pattern is a predicate
    on such a path. With the default options a `*` or `**` never matches a
    segment that starts with a dot, and matching is case-sensitive. */
module Glob {
  import opened Text

  /** Some segment of the relative path starts with `.`. */
  predicate HasHiddenSegment(p: string) {
    exists k :: 0 <= k < |p| && p[k] == '.' && (k == 0 || p[k - 1] == '/')
  }

  /** The text after the last `/`. */
  function BaseName(p: string): (r: string)
    ensures EndsWith(p, r) && '/' !in r
    ensures |r| < |p| ==> p[|p| - |r| - 1] == '/'
  {
    if p == [] then ""
    else if p[|p| - 1] == '/' then ""
    else
      var r := BaseName(p[..|p| - 1]) + [p[|p| - 1]];
      assert p[|p| - |r|..] == p[..|p| - 1][|p| - |r|..] + [p[|p| - 1]];
      r
  }

  /** A character other than `/` extends the base name. */
  lemma BaseNameSnoc(x: string, c: char)
    requires c != '/'
    ensures BaseName(x + [c]) == BaseName(x) + [c]
  {
    assert (x + [c])[..|x + [c]| - 1] == x;
  }

  /** In a path without hidden segments a dot never starts a segment. */
  lemma VisibleDot(p: string, k: nat)
    requires !HasHiddenSegment(p) && k < |p| && p[k] == '.'
    ensures k > 0 && p[k - 1] != '/'
  {
  }

  /** The base name of a path is the name after its last directory. */
  lemma {:induction false} BaseNameAfterSlash(d: string, n: string)
    requires d == [] || d[|d| - 1] == '/'
    requires '/' !in n
    ensures BaseName(d + n) == n
    decreases |n|
  {
    if n == [] {
      assert d + n == d;
    } else {
      var m := n[..|n| - 1];
      assert n == m + [n[|n| - 1]];
      assert d + n == (d + m) + [n[|n| - 1]];
      BaseNameAfterSlash(d, m);
      BaseNameSnoc(d + m, n[|n| - 1]);
    }
  }

  /** The paths of `files` that `keep` accepts, in their order. */
  function Select(files: seq<string>, keep: string -> bool): (r: seq<string>)
    ensures |r| <= |files|
    ensures forall k :: 0 <= k < |r| ==> keep(r[k]) && r[k] in files
    ensures forall f :: f in files && keep(f) ==> f in r
  {
    if files == [] then []
    else
      var rest := Select(files[1..], keep);
      assert forall f :: f in files[1..] ==> f in files;
      assert forall f :: f in files ==> f == files[0] || f in files[1..];
      if keep(files[0]) then [files[0]] + rest else rest
  }

  /** A single path is kept exactly when `keep` accepts it. */
  lemma SelectOne(f: string, keep: string -> bool)
    ensures Select([f], keep) == if keep(f) then [f] else []
  {
    assert [f][1..] == [];
  }

  /** Selection keeps the walk's order: selecting from two listings one
      after the other is selecting from each and joining the results. */
  lemma {:induction false} SelectAppend(a: seq<string>, b: seq<string>, keep: string -> bool)
    ensures Select(a + b, keep) == Select(a, keep) + Select(b, keep)
    decreases |a|
  {
    if a == [] {
      assert a + b == b;
    } else {
      assert (a + b)[0] == a[0];
      assert (a + b)[1..] == a[1..] + b;
      SelectAppend(a[1..], b, keep);
    }
  }
}
