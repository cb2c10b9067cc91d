/** The include resolver of scripts/build.mjs (`resolveIncludes`): every
    line-anchored `@include <path>` directive is replaced by the resolved
    text of the named file, or by a "not found" comment.

    The file system is a map from absolute normal paths to nodes; the
    recursion and the scanning loop have no guard in the source, so both
    are bounded here by a fuel argument, and running out of fuel stands for
    a build that never finishes. */
module Includes {
  import opened Text
  import opened Paths

  datatype Node = File(text: string) | Directory

  type FileSystem = map<string, Node>

  /** One match of `/@include\s+(.+)\s*$/gm`: the whole match is
      `s[start..end]`, the captured path is `s[pathStart..pathEnd]`. */
  datatype Directive = Directive(start: nat, pathStart: nat, pathEnd: nat, end: nat)

  datatype Error =
    | ReadDirectory(path: string)  // readFile on a directory rejects
    | OutOfFuel                    // the source would recurse or loop forever

  datatype Outcome = Resolved(html: string) | Failed(error: Error)

  const Keyword: string := "@include"

  /** The shape a match of the directive pattern at `p` must have: the
      keyword, white space, a captured path with no line terminator, white
      space, then the end of the text or of a line. */
  predicate IsDirectiveMatch(s: string, p: nat, q: nat, r: nat, e: nat) {
    && p + |Keyword| < q < r <= e <= |s|
    && HasAt(s, p, Keyword)
    && (forall k :: p + |Keyword| <= k < q ==> IsSpace(s[k]))
    && (forall k :: q <= k < r ==> !IsLineTerminator(s[k]))
    && (forall k :: r <= k < e ==> IsSpace(s[k]))
    && (e == |s| || IsLineTerminator(s[e]))
  }

  /** Length of the longest run of characters other than line terminators
      starting at `i` (what a greedy `.+` can take). */
  function LineRun(s: string, i: nat): (n: nat)
    requires i <= |s|
    ensures i + n <= |s|
    ensures forall k :: i <= k < i + n ==> !IsLineTerminator(s[k])
    ensures i + n == |s| || IsLineTerminator(s[i + n])
    decreases |s| - i
  {
    if i < |s| && !IsLineTerminator(s[i]) then 1 + LineRun(s, i + 1) else 0
  }

  /** No captured path can start at `i`. */
  predicate NoPathAt(s: string, i: nat) {
    i >= |s| || IsLineTerminator(s[i])
  }

  /** The largest `j`, `1 <= j <= k`, such that `s[a + j]` exists and is
      not a line terminator: how far the greedy `\s+` can reach while
      leaving at least one character for `(.+)`. */
  function PathStart(s: string, a: nat, k: nat): (r: Option<nat>)
    ensures r.Some? ==> 1 <= r.value <= k && !NoPathAt(s, a + r.value)
    ensures r.Some? ==> forall i :: a + r.value < i <= a + k ==> NoPathAt(s, i)
    ensures r.None? ==> forall i :: a + 1 <= i <= a + k ==> NoPathAt(s, i)
  {
    if k == 0 then None
    else if !NoPathAt(s, a + k) then Some(k)
    else PathStart(s, a, k - 1)
  }

  /** The last line terminator in `s[lo..hi]`. */
  function LastTerminator(s: string, lo: nat, hi: nat): (r: Option<nat>)
    requires lo <= hi <= |s|
    ensures r.Some? ==> lo <= r.value < hi && IsLineTerminator(s[r.value])
    ensures r.Some? ==> forall k :: r.value < k < hi ==> !IsLineTerminator(s[k])
    ensures r.None? ==> forall k :: lo <= k < hi ==> !IsLineTerminator(s[k])
    decreases hi - lo
  {
    if hi == lo then None
    else if IsLineTerminator(s[hi - 1]) then Some(hi - 1)
    else LastTerminator(s, lo, hi - 1)
  }

  /** The match the regular expression engine reports at `p`, with its
      backtracking order: `\s+` as long as `(.+)` can still start, `(.+)` to
      the end of the line, and `\s*` up to the last line break of the white
      space that follows (or to the end of the text). */
  function DirectiveAt(s: string, p: nat): (r: Option<Directive>)
    requires p <= |s|
    ensures r.Some? ==>
              && r.value.start == p
              && p + |Keyword| < r.value.pathStart < r.value.pathEnd <= r.value.end <= |s|
  {
    if !HasAt(s, p, Keyword) then None
    else
      var a := p + |Keyword|;
      match PathStart(s, a, SpaceRun(s, a))
      case None => None
      case Some(k) =>
        var q := a + k;
        var r := q + LineRun(s, q);
        var w := SpaceRun(s, r);
        var e := if r + w == |s| then |s|
                 else match LastTerminator(s, r, r + w)
                   case Some(t) => t
                   case None => r;
        Some(Directive(p, q, r, e))
  }

  /** What is reported is a match of the pattern, and the captured path
      runs to the end of its line. */
  lemma DirectiveAtSound(s: string, p: nat)
    requires p <= |s|
    ensures DirectiveAt(s, p).Some? ==>
      var d := DirectiveAt(s, p).value;
      && IsDirectiveMatch(s, p, d.pathStart, d.pathEnd, d.end)
      && (d.pathEnd == |s| || IsLineTerminator(s[d.pathEnd]))
  {
    if DirectiveAt(s, p).Some? {
      var d := DirectiveAt(s, p).value;
      SpaceRunIs(s, p + |Keyword|);
      SpaceRunIs(s, d.pathEnd);
    }
  }

  /** A match is found at `p` whenever the text there has the directive's
      shape at all. */
  lemma DirectiveAtComplete(s: string, p: nat, q: nat, r: nat, e: nat)
    ensures IsDirectiveMatch(s, p, q, r, e) ==> DirectiveAt(s, p).Some?
  {
    if IsDirectiveMatch(s, p, q, r, e) {
      var a := p + |Keyword|;
      var w := SpaceRun(s, a);
      SpaceRunIs(s, a);
      assert q - a <= w;
      assert !NoPathAt(s, q);
    }
  }

  /** `includeRegex.exec(html)` with the regular expression's `lastIndex`
      at `from`: the first match starting at or after `from`. */
  function Exec(s: string, from: nat): (r: Option<Directive>)
    ensures r.Some? ==>
              && from <= r.value.start
              && r.value.start + |Keyword| < r.value.pathStart < r.value.pathEnd <= r.value.end <= |s|
    decreases |s| + 1 - from
  {
    if from > |s| then None
    else if DirectiveAt(s, from).Some? then DirectiveAt(s, from)
    else Exec(s, from + 1)
  }

  /** What `exec` reports is the match at its start position. */
  lemma {:induction false} ExecIsMatch(s: string, from: nat)
    requires Exec(s, from).Some?
    ensures DirectiveAt(s, Exec(s, from).value.start) == Exec(s, from)
    decreases |s| + 1 - from
  {
    if DirectiveAt(s, from).None? {
      ExecIsMatch(s, from + 1);
    }
  }

  /** The match `exec` reports is the first one at or after `from`. */
  lemma {:induction false} ExecFirst(s: string, from: nat)
    requires Exec(s, from).Some?
    ensures forall p :: from <= p < Exec(s, from).value.start ==> DirectiveAt(s, p).None?
    decreases |s| + 1 - from
  {
    var none := DirectiveAt(s, from).None?;
    if none {
      ExecFirst(s, from + 1);
      var v := Exec(s, from + 1).value.start;
      forall p | from <= p < v ensures DirectiveAt(s, p).None? {
        if p == from {
          assert none;
        }
      }
    }
  }

  /** `exec` fails exactly when no match starts at or after `from`. */
  lemma {:induction false} ExecNone(s: string, from: nat)
    ensures Exec(s, from).None? <==> forall p :: from <= p <= |s| ==> DirectiveAt(s, p).None?
    decreases |s| + 1 - from
  {
    if from <= |s| {
      ExecNone(s, from + 1);
      var here := DirectiveAt(s, from).None?;
      if here && Exec(s, from).None? {
        forall p | from <= p <= |s| ensures DirectiveAt(s, p).None? {
          if p == from {
            assert here;
          }
        }
      }
    }
  }

  /** The include path: the capture trimmed, then every quote removed. */
  function IncludePath(s: string, d: Directive): (r: string)
    requires d.start <= d.pathStart <= d.pathEnd <= |s|
    ensures '\'' !in r && '"' !in r
    ensures |r| <= d.pathEnd - d.pathStart
  {
    Remove(Trim(s[d.pathStart..d.pathEnd]), {'\'', '"'})
  }

  /** A capture without quotes is the include path once trimmed: only
      the white space around it is cut off. */
  lemma {:induction false} IncludePathTrimmed(s: string, d: Directive, t: string)
    requires d.start <= d.pathStart <= d.pathEnd <= |s|
    requires t == Trim(s[d.pathStart..d.pathEnd])
    requires forall k :: 0 <= k < |t| ==> t[k] != '\'' && t[k] != '"'
    ensures IncludePath(s, d) == t
  {
    assert forall k :: 0 <= k < |t| ==> t[k] !in {'\'', '"'};
  }

  /** The comment spliced in for a missing include target. */
  function NotFound(path: string): string {
    "<!-- include not found: " + path + " -->"
  }

  /** The first index at which `pat` occurs in `s`, searching from `i`. */
  function IndexOf(s: string, pat: string, i: nat): (r: Option<nat>)
    ensures r.Some? ==> i <= r.value && HasAt(s, r.value, pat)
    decreases |s| + 1 - i
  {
    if i + |pat| > |s| then None
    else if s[i..i + |pat|] == pat then Some(i)
    else IndexOf(s, pat, i + 1)
  }

  /** `IndexOf` finds the first occurrence, and fails only when there is
      none. */
  lemma {:induction false} IndexOfFirst(s: string, pat: string, i: nat)
    ensures IndexOf(s, pat, i).Some? ==>
              forall k :: i <= k < IndexOf(s, pat, i).value ==> !HasAt(s, k, pat)
    ensures IndexOf(s, pat, i).None? ==> forall k :: i <= k ==> !HasAt(s, k, pat)
    decreases |s| + 1 - i
  {
    if i + |pat| <= |s| && s[i..i + |pat|] != pat {
      IndexOfFirst(s, pat, i + 1);
    }
  }

  /** The replacement text of `String.prototype.replace` with a string
      pattern: `$$` is a dollar sign, `$&` the matched text, `` $` `` the
      text before the match, `$'` the text after it; any other `$` stands
      for itself. */
  function Expand(rep: string, s: string, pos: nat, matched: string): string
    requires pos + |matched| <= |s|
  {
    if rep == [] then ""
    else if rep[0] == '$' && |rep| >= 2 && rep[1] == '$' then "$" + Expand(rep[2..], s, pos, matched)
    else if rep[0] == '$' && |rep| >= 2 && rep[1] == '&' then matched + Expand(rep[2..], s, pos, matched)
    else if rep[0] == '$' && |rep| >= 2 && rep[1] == '`' then s[..pos] + Expand(rep[2..], s, pos, matched)
    else if rep[0] == '$' && |rep| >= 2 && rep[1] == '\'' then
      s[pos + |matched|..] + Expand(rep[2..], s, pos, matched)
    else [rep[0]] + Expand(rep[1..], s, pos, matched)
  }

  /** A replacement without `$` is inserted as it is. */
  lemma {:induction false} ExpandPlain(rep: string, s: string, pos: nat, matched: string)
    requires pos + |matched| <= |s|
    requires '$' !in rep
    ensures Expand(rep, s, pos, matched) == rep
  {
    if rep != [] {
      assert rep[0] != '$';
      ExpandPlain(rep[1..], s, pos, matched);
      assert rep == [rep[0]] + rep[1..];
    }
  }

  /** `s.replace(pat, rep)` for a string `pat`: only the first occurrence
      of `pat` is replaced. */
  function ReplaceFirst(s: string, pat: string, rep: string): string {
    match IndexOf(s, pat, 0)
    case None => s
    case Some(i) => s[..i] + Expand(rep, s, i, pat) + s[i + |pat|..]
  }

  lemma ReplaceFirstPlain(s: string, pat: string, rep: string, i: nat)
    requires IndexOf(s, pat, 0) == Some(i)
    requires '$' !in rep
    ensures ReplaceFirst(s, pat, rep) == s[..i] + rep + s[i + |pat|..]
  {
    ExpandPlain(rep, s, i, pat);
  }

  /** The fuel left after one pass. Kept as a function of its own so that
      the fuel of a pass and of the pass after it are related by name. */
  function Spend(fuel: nat): (r: nat)
    requires fuel > 0
    ensures r < fuel
  {
    fuel - 1
  }

  /** The loop of `resolveIncludes` from the point where the regular
      expression's `lastIndex` is `lastIndex`, as a function. Each pass
      costs one unit of fuel; an included file is resolved with the fuel
      that is left. Scanning resumes at the end of the old match, in the
      new text. */
  function Scan(fs: FileSystem, html: string, baseDir: string, lastIndex: nat, fuel: nat): Outcome
    decreases fuel
  {
    match Exec(html, lastIndex)
    case None => Resolved(html)
    case Some(d) =>
      if fuel == 0 then Failed(OutOfFuel)
      else
        var target := IncludePath(html, d);
        var full := Resolve(baseDir, target);
        var directive := html[d.start..d.end];
        if full !in fs then
          Scan(fs, ReplaceFirst(html, directive, NotFound(target)), baseDir, d.end, Spend(fuel))
        else match fs[full]
          case Directory => Failed(ReadDirectory(full))
          case File(text) =>
            match Scan(fs, text, Dirname(full), 0, Spend(fuel))
            case Failed(err) => Failed(err)
            case Resolved(frag) =>
              Scan(fs, ReplaceFirst(html, directive, frag), baseDir, d.end, Spend(fuel))
  }

  /** A directive whose target is absent is replaced by the "not found"
      comment for its cleaned path, and scanning goes on after the old
      match. */
  lemma ScanMissingTarget(fs: FileSystem, html: string, baseDir: string, lastIndex: nat,
                          fuel: nat, d: Directive)
    requires Exec(html, lastIndex) == Some(d) && fuel > 0
    requires Resolve(baseDir, IncludePath(html, d)) !in fs
    ensures Scan(fs, html, baseDir, lastIndex, fuel)
         == Scan(fs, ReplaceFirst(html, html[d.start..d.end], NotFound(IncludePath(html, d))),
                 baseDir, d.end, Spend(fuel))
  {
  }

  /** A directive whose target is a file is replaced by that file's text,
      itself resolved against the file's own directory. */
  lemma ScanPresentTarget(fs: FileSystem, html: string, baseDir: string, lastIndex: nat,
                          fuel: nat, d: Directive, frag: string)
    requires Exec(html, lastIndex) == Some(d) && fuel > 0
    requires var full := Resolve(baseDir, IncludePath(html, d));
      full in fs && fs[full].File?
      && Scan(fs, fs[full].text, Dirname(full), 0, Spend(fuel)) == Resolved(frag)
    ensures Scan(fs, html, baseDir, lastIndex, fuel)
         == Scan(fs, ReplaceFirst(html, html[d.start..d.end], frag), baseDir, d.end, Spend(fuel))
  {
  }

  /** `resolveIncludes(html, baseDir)`: the loop, then the recursion for
      each present target, written as the source writes it. */
  method ResolveIncludes(fs: FileSystem, html0: string, baseDir: string, fuel: nat) returns (r: Outcome)
    ensures r == Scan(fs, html0, baseDir, 0, fuel)
    decreases fuel
  {
    var html: string, lastIndex: nat, f: nat := html0, 0, fuel;
    while true
      invariant f <= fuel
      invariant Scan(fs, html, baseDir, lastIndex, f) == Scan(fs, html0, baseDir, 0, fuel)
      decreases f
    {
      var m := Exec(html, lastIndex);
      if m.None? {
        return Resolved(html);
      }
      if f == 0 {
        return Failed(OutOfFuel);
      }
      var d := m.value;
      var rest := Spend(f);
      var target := IncludePath(html, d);
      var full := Resolve(baseDir, target);
      if full !in fs {
        var next := ReplaceFirst(html, html[d.start..d.end], NotFound(target));
        ScanMissingTarget(fs, html, baseDir, lastIndex, f, d);
        html, lastIndex, f := next, d.end, rest;
      } else if fs[full].Directory? {
        return Failed(ReadDirectory(full));
      } else {
        var frag := ResolveIncludes(fs, fs[full].text, Dirname(full), rest);
        if frag.Failed? {
          return frag;
        }
        var next := ReplaceFirst(html, html[d.start..d.end], frag.html);
        ScanPresentTarget(fs, html, baseDir, lastIndex, f, d, frag.html);
        html, lastIndex, f := next, d.end, rest;
      }
    }
  }
}
