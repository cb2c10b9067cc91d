/** The parts of Node's POSIX `path` module that the build scripts rely on:
    `path.parse` (for image sources and their derivatives), `path.resolve`
    and `path.dirname` (for include directives). */
module Paths {
  import opened Text

  /** The `dir`, `name` and `ext` fields of `path.parse`'s result. */
  datatype Parsed = Parsed(dir: string, name: string, ext: string)

  /** The last index `i` with `lo <= i < hi` and `s[i] == c`, if any. */
  function LastIndexOf(s: string, c: char, lo: nat, hi: nat): (r: Option<nat>)
    requires lo <= hi <= |s|
    ensures r.Some? ==>
              && lo <= r.value < hi && s[r.value] == c
              && forall k :: r.value < k < hi ==> s[k] != c
    ensures r.None? ==> forall k :: lo <= k < hi ==> s[k] != c
    decreases hi - lo
  {
    if hi == lo then None
    else if s[hi - 1] == c then Some(hi - 1)
    else LastIndexOf(s, c, lo, hi - 1)
  }

  /** The end of `p` once trailing slashes after index `start` are dropped. */
  function EndWithoutSlashes(p: string, start: nat, e: nat): (r: nat)
    requires start <= e <= |p|
    ensures start <= r <= e
    ensures forall k :: r <= k < e ==> p[k] == '/'
    ensures r == start || p[r - 1] != '/'
    decreases e
  {
    if e > start && p[e - 1] == '/' then EndWithoutSlashes(p, start, e - 1) else e
  }

  /** `path.parse(p)` on POSIX. The final segment is the base, trailing
      slashes ignored; the extension starts at the base's last dot unless
      that dot is the base's first character or the base is `..` (the
      latter test is made against the segment start, so `/..` does get the
      extension `.`); the directory is everything before the base's
      separating slash, or `/` for a base directly under the root. */
  function Parse(p: string): (r: Parsed)
    ensures r.ext != [] ==> r.ext[0] == '.'
  {
    var isAbs := |p| > 0 && p[0] == '/';
    var start := if isAbs then 1 else 0;
    var e := EndWithoutSlashes(p, start, |p|);
    var slash := LastIndexOf(p, '/', start, e);
    ParseSegment(p, isAbs, e, if slash.Some? then slash.value + 1 else 0)
  }

  /** The second half of `path.parse`, once the end of the last segment
      (`e`) and its start after the separating slash (`startPart`, 0 when
      there is no slash past the root) are known. */
  function ParseSegment(p: string, isAbs: bool, e: nat, startPart: nat): (r: Parsed)
    requires startPart <= e <= |p|
    requires isAbs ==> e >= 1
    ensures r.ext != [] ==> r.ext[0] == '.'
  {
    var start := if isAbs then 1 else 0;
    var baseStart := if startPart == 0 && isAbs then 1 else startPart;
    var dir := if startPart > 0 then p[..startPart - 1] else if isAbs then "/" else "";
    if e == start then
      Parsed(dir, "", "")
    else
      var base := p[baseStart..e];
      var dot := LastIndexOf(p, '.', baseStart, e);
      if dot.None? || dot.value == baseStart || (base == ".." && baseStart == startPart) then
        Parsed(dir, base, "")
      else
        Parsed(dir, p[baseStart..dot.value], p[dot.value..e])
  }

  /** `path.format`-style rebuilding of a relative or absolute file path
      from its directory, name and extension. */
  function Format(dir: string, name: string, ext: string): string {
    (if dir == "" then "" else dir + "/") + name + ext
  }

  /** A real extension: a dot followed by at least one character, none of
      them a dot or a slash. */
  predicate IsExtension(ext: string) {
    |ext| >= 2 && ext[0] == '.' && '/' !in ext && '.' !in ext[1..]
  }

  lemma {:induction false} LastIndexOfIs(s: string, c: char, lo: nat, hi: nat, i: nat)
    requires lo <= i < hi <= |s| && s[i] == c
    requires forall k :: i < k < hi ==> s[k] != c
    ensures LastIndexOf(s, c, lo, hi) == Some(i)
    decreases hi
  {
    if hi - 1 != i {
      LastIndexOfIs(s, c, lo, hi - 1, i);
    }
  }

  /** Where the last slash of a formatted path is. */
  lemma FormatSlash(dir: string, name: string, ext: string, start: nat)
    requires dir == "" || dir[|dir| - 1] != '/'
    requires name != [] && '/' !in name
    requires IsExtension(ext)
    requires start <= (if dir == "" then 0 else |dir|)
    ensures var p := Format(dir, name, ext);
      start <= |p| &&
      LastIndexOf(p, '/', start, |p|) == if dir == "" then None else Some(|dir|)
  {
    var p := Format(dir, name, ext);
    var pre := if dir == "" then "" else dir + "/";
    assert p == pre + name + ext;
    forall k | |pre| <= k < |p| ensures p[k] != '/' {
      if k < |pre| + |name| {
        assert p[k] == name[k - |pre|];
      } else {
        assert p[k] == ext[k - |pre| - |name|];
      }
    }
    if dir != "" {
      assert p[|dir|] == '/';
      LastIndexOfIs(p, '/', start, |p|, |dir|);
    }
  }

  /** Where the last dot of a formatted path is. */
  lemma FormatDot(dir: string, name: string, ext: string)
    requires IsExtension(ext)
    ensures var p := Format(dir, name, ext);
      var n := |p| - |ext|;
      0 <= n && LastIndexOf(p, '.', n - |name|, |p|) == Some(n)
      && p[n - |name|..n] == name && p[n..] == ext
  {
    var p := Format(dir, name, ext);
    var pre := if dir == "" then "" else dir + "/";
    assert p == pre + name + ext;
    var n := |p| - |ext|;
    forall k | n < k < |p| ensures p[k] != '.' {
      assert p[k] == ext[1..][k - n - 1];
    }
    assert p[n] == '.';
    LastIndexOfIs(p, '.', n - |name|, |p|, n);
  }

  /** `path.parse` takes a formatted path apart into the pieces it was made
      of, whenever the directory has no trailing slash and the name is a
      non-empty slash-free segment. */
  lemma ParseFormat(dir: string, name: string, ext: string)
    requires dir == "" || dir[|dir| - 1] != '/'
    requires name != [] && '/' !in name
    requires IsExtension(ext)
    ensures Parse(Format(dir, name, ext)) == Parsed(dir, name, ext)
  {
    var p := Format(dir, name, ext);
    FormatEnds(dir, name, ext);
    var isAbs := p[0] == '/';
    var start := if isAbs then 1 else 0;
    NoTrailingSlash(p, start);
    FormatSlash(dir, name, ext, start);
    FormatSegment(dir, name, ext, isAbs);
  }

  /** The ends of a formatted path: the last character is the extension's,
      and a leading slash comes from the directory. */
  lemma FormatEnds(dir: string, name: string, ext: string)
    requires name != [] && '/' !in name && IsExtension(ext)
    ensures var p := Format(dir, name, ext);
      |p| >= 2 && p[|p| - 1] != '/' && (p[0] == '/' ==> dir != "")
  {
    var p := Format(dir, name, ext);
    var pre := if dir == "" then "" else dir + "/";
    assert p == pre + name + ext;
    assert dir == "" ==> p[0] == name[0];
    assert p[|p| - 1] == ext[|ext| - 1];
  }

  /** Without a trailing slash, the end of the path is its length. */
  lemma NoTrailingSlash(p: string, start: nat)
    requires start < |p| && p[|p| - 1] != '/'
    ensures EndWithoutSlashes(p, start, |p|) == |p|
  {
  }

  lemma FormatSegment(dir: string, name: string, ext: string, isAbs: bool)
    requires name != [] && IsExtension(ext)
    requires isAbs ==> dir != ""
    ensures var p := Format(dir, name, ext);
      var pre := if dir == "" then "" else dir + "/";
      |pre| <= |p| &&
      ParseSegment(p, isAbs, |p|, |pre|) == Parsed(dir, name, ext)
  {
    var p := Format(dir, name, ext);
    var pre := if dir == "" then "" else dir + "/";
    assert p == pre + name + ext;
    FormatDot(dir, name, ext);
    assert dir != "" ==> p[..|pre| - 1] == dir;
    assert p[|pre|..|p|] == name + ext;
  }

  /** The extension `ParseSegment` finds: from the last dot of the base,
      when that dot is not the base's first character. */
  lemma SegmentExt(p: string, isAbs: bool, e: nat, startPart: nat, dot: nat)
    requires startPart <= e <= |p| && (isAbs ==> e >= 1)
    requires (if startPart == 0 && isAbs then 1 else startPart) < dot < e
    requires LastIndexOf(p, '.', if startPart == 0 && isAbs then 1 else startPart, e) == Some(dot)
    requires p[e - 1] != '.'
    ensures ParseSegment(p, isAbs, e, startPart).ext == p[dot..e]
  {
    var baseStart := if startPart == 0 && isAbs then 1 else startPart;
    assert p[baseStart..e][e - 1 - baseStart] == p[e - 1];
  }

  /** The pieces of `s` between slashes (`s.split("/")`). */
  function Split(s: string): (r: seq<string>)
    ensures |r| >= 1
    ensures forall k :: 0 <= k < |r| ==> '/' !in r[k]
  {
    if s == [] then [""]
    else
      var rest := Split(s[1..]);
      if s[0] == '/' then [""] + rest else [[s[0]] + rest[0]] + rest[1..]
  }

  /** A segment that survives normalisation. */
  predicate IsPlainSegment(seg: string) {
    seg != "" && seg != "." && seg != ".." && '/' !in seg
  }

  /** The segment walk of `path.normalize` for an absolute path: empty and
      `.` segments vanish, `..` drops the previous segment (and nothing at
      the root). */
  function Canon(segs: seq<string>, stack: seq<string>): (r: seq<string>)
    requires forall k :: 0 <= k < |segs| ==> '/' !in segs[k]
    requires forall k :: 0 <= k < |stack| ==> IsPlainSegment(stack[k])
    ensures forall k :: 0 <= k < |r| ==> IsPlainSegment(r[k])
  {
    if segs == [] then stack
    else if segs[0] == "" || segs[0] == "." then Canon(segs[1..], stack)
    else if segs[0] == ".." then Canon(segs[1..], if stack == [] then [] else stack[..|stack| - 1])
    else Canon(segs[1..], stack + [segs[0]])
  }

  /** The absolute normal form of a path: a slash, then its plain segments
      joined by slashes. */
  function NormalizeAbs(s: string): (r: string)
    ensures r != [] && r[0] == '/'
  {
    "/" + Join(Canon(Split(s), []), "/")
  }

  /** `path.resolve(base, p)` for an absolute `base`: an absolute `p` stands
      on its own, a relative one is read from `base`. */
  function Resolve(base: string, p: string): (r: string)
    ensures r != [] && r[0] == '/'
  {
    NormalizeAbs(if StartsWith(p, "/") then p else base + "/" + p)
  }

  /** `path.dirname` of an absolute path in normal form. */
  function Dirname(p: string): (r: string)
    requires p != [] && p[0] == '/'
    ensures r != [] && r[0] == '/' && |r| <= |p|
  {
    var i := LastIndexOf(p, '/', 0, |p|);
    if i.None? || i.value == 0 then "/" else p[..i.value]
  }
}
