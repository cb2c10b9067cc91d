/** The naming rules of scripts/release.mjs: the package name and version
    with their defaults, the time stamp cut from an ISO date string, the
    zip file's name, and the `-x "<pattern>"` arguments handed to `zip`.
    The clock is a parameter: `iso` stands for `new Date().toISOString()`. */
module Release {
  import opened Text
  import opened Naming
  import opened IsoDate

  /** `String(pkg.version || "0.0.0")`. */
  function Version(version: Option<string>): (r: string)
    ensures r != []
    ensures version.Some? && version.value != [] ==> r == version.value
    ensures version.None? || version.value == [] ==> r == "0.0.0"
  {
    if version.Some? && version.value != "" then version.value else "0.0.0"
  }

  /** `String.prototype.slice(a, b)` for `0 <= a <= b`: the indices are
      clamped to the length. */
  function Slice(s: string, a: nat, b: nat): (r: string)
    requires a <= b
    ensures |s| >= b ==> r == s[a..b]
    ensures a <= |s| < b ==> r == s[a..]
    ensures |s| < a ==> r == ""
    ensures |r| == (if |s| >= b then b - a else if |s| >= a then |s| - a else 0)
  {
    if |s| <= a then "" else if |s| <= b then s[a..] else s[a..b]
  }

  /** `iso.replace(/[:T]/g, "").slice(0, 15)`. */
  function Stamp(iso: string): (r: string)
    ensures |r| <= 15 && ':' !in r && 'T' !in r
  {
    var s := Remove(iso, {':', 'T'});
    var r := Slice(s, 0, 15);
    assert forall k :: 0 <= k < |r| ==> r[k] == s[k];
    r
  }

  /** `${stamp.slice(0,8)}-${stamp.slice(8,12)}`. */
  function PrettyStamp(stamp: string): (r: string)
    ensures |r| <= 13 && |Slice(stamp, 0, 8)| < |r| && r[|Slice(stamp, 0, 8)|] == '-'
    ensures r[..|Slice(stamp, 0, 8)|] == Slice(stamp, 0, 8)
    ensures r[|Slice(stamp, 0, 8)| + 1..] == Slice(stamp, 8, 12)
  {
    Slice(stamp, 0, 8) + "-" + Slice(stamp, 8, 12)
  }

  /** The pretty stamp has 13 characters whenever the ISO string keeps at
      least twelve once its colons and `T`s are gone. */
  lemma PrettyStampLength(iso: string)
    requires |Remove(iso, {':', 'T'})| >= 12
    ensures |PrettyStamp(Stamp(iso))| == 13
  {
  }

  /** `${name}-v${version}-${prettyStamp}.zip`, with `name` sanitised by
      `-` replacement as in `PROJECT_NAME`. */
  function ZipName(name: Option<string>, version: Option<string>, iso: string): (r: string)
    ensures StartsWith(r, ProjectName(name) + "-v" + Version(version) + "-")
    ensures EndsWith(r, ".zip")
  {
    var pre := ProjectName(name) + "-v" + Version(version) + "-";
    var r := pre + PrettyStamp(Stamp(iso)) + ".zip";
    assert r[..|pre|] == pre;
    assert r[|r| - 4..] == ".zip";
    r
  }

  /** Removing `:` and `T` from a string of digits changes nothing. */
  lemma RemoveDigits(s: string, n: nat, drop: set<char>)
    requires Digits(s, n) && forall c :: c in drop ==> !IsDigit(c)
    ensures Remove(s, drop) == s
    decreases n
  {
    if n > 0 {
      assert Digits(s[1..], n - 1);
      RemoveDigits(s[1..], n - 1, drop);
      assert s == [s[0]] + s[1..];
    }
  }

  /** What the release stamp of a real ISO string is: the date with its
      dashes, then hours, minutes and the tens digit of the seconds. */
  lemma StampOfIso(y: string, mo: string, d: string, h: string, mi: string, s: string, ms: string)
    requires IsoPieces(y, mo, d, h, mi, s, ms)
    ensures Stamp(Iso(y, mo, d, h, mi, s, ms)) == y + "-" + mo + "-" + d + h + mi + s[..1]
  {
    var drop := {':', 'T'};
    RemoveDigits(y, 4, drop);
    RemoveDigits(mo, 2, drop);
    RemoveDigits(d, 2, drop);
    RemoveDigits(h, 2, drop);
    RemoveDigits(mi, 2, drop);
    RemoveDigits(s, 2, drop);
    RemoveDigits(ms, 3, drop);
    var kept := y + "-" + mo + "-" + d + h + mi + s + "." + ms + "Z";
    assert Remove(Iso(y, mo, d, h, mi, s, ms), drop) == kept by {
      RemoveIso(y, mo, d, h, mi, s, ms);
    }
    assert kept[0..15] == y + "-" + mo + "-" + d + h + mi + s[..1];
  }

  /** One more piece that removal keeps whole. */
  lemma RemoveSnocKept(acc: string, part: string, kept: string, drop: set<char>)
    requires Remove(acc, drop) == kept && Remove(part, drop) == part
    ensures Remove(acc + part, drop) == kept + part
  {
    RemoveAppend(acc, part, drop);
  }

  /** One more piece that removal deletes. */
  lemma RemoveSnocDropped(acc: string, part: string, kept: string, drop: set<char>)
    requires Remove(acc, drop) == kept && Remove(part, drop) == ""
    ensures Remove(acc + part, drop) == kept
  {
    RemoveAppend(acc, part, drop);
    assert kept + "" == kept;
  }

  /** The removal step of StampOfIso, piece by piece. */
  lemma RemoveIso(y: string, mo: string, d: string, h: string, mi: string, s: string, ms: string)
    requires Remove(y, {':', 'T'}) == y && Remove(mo, {':', 'T'}) == mo
    requires Remove(d, {':', 'T'}) == d && Remove(h, {':', 'T'}) == h
    requires Remove(mi, {':', 'T'}) == mi && Remove(s, {':', 'T'}) == s
    requires Remove(ms, {':', 'T'}) == ms
    ensures Remove(Iso(y, mo, d, h, mi, s, ms), {':', 'T'})
         == y + "-" + mo + "-" + d + h + mi + s + "." + ms + "Z"
  {
    var drop := {':', 'T'};
    assert Remove("-", drop) == "-";
    assert Remove("T", drop) == "";
    assert Remove(":", drop) == "";
    assert Remove(".", drop) == ".";
    assert Remove("Z", drop) == "Z";
    var a1, k1 := y + "-", y + "-";
    RemoveSnocKept(y, "-", y, drop);
    var a2, k2 := a1 + mo, k1 + mo;
    RemoveSnocKept(a1, mo, k1, drop);
    var a3, k3 := a2 + "-", k2 + "-";
    RemoveSnocKept(a2, "-", k2, drop);
    var a4, k4 := a3 + d, k3 + d;
    RemoveSnocKept(a3, d, k3, drop);
    var a5 := a4 + "T";
    RemoveSnocDropped(a4, "T", k4, drop);
    var a6, k6 := a5 + h, k4 + h;
    RemoveSnocKept(a5, h, k4, drop);
    var a7 := a6 + ":";
    RemoveSnocDropped(a6, ":", k6, drop);
    var a8, k8 := a7 + mi, k6 + mi;
    RemoveSnocKept(a7, mi, k6, drop);
    var a9 := a8 + ":";
    RemoveSnocDropped(a8, ":", k8, drop);
    var a10, k10 := a9 + s, k8 + s;
    RemoveSnocKept(a9, s, k8, drop);
    var a11, k11 := a10 + ".", k10 + ".";
    RemoveSnocKept(a10, ".", k10, drop);
    var a12, k12 := a11 + ms, k11 + ms;
    RemoveSnocKept(a11, ms, k11, drop);
    RemoveSnocKept(a12, "Z", k12, drop);
  }

  /** The pretty stamp of a real ISO string is `YYYY-MM--DDHH`: the dashes
      of the date survive, so the eight characters before the added dash
      are year, month and their separators, and the four after it are the
      day and the hour. */
  lemma PrettyStampOfIso(y: string, mo: string, d: string, h: string, mi: string, s: string, ms: string)
    requires IsoPieces(y, mo, d, h, mi, s, ms)
    ensures PrettyStamp(Stamp(Iso(y, mo, d, h, mi, s, ms))) == y + "-" + mo + "-" + "-" + d + h
  {
    StampOfIso(y, mo, d, h, mi, s, ms);
    var st := y + "-" + mo + "-" + d + h + mi + s[..1];
    assert st[0..8] == y + "-" + mo + "-";
    assert st[8..12] == d + h;
  }

  /** The release file name for a real date: the date keeps its dashes
      and a second dash follows the month, so `YYYYMMDD-HHMM` is not what
      comes out. */
  lemma ZipNameOfIso(name: Option<string>, version: Option<string>,
                     y: string, mo: string, d: string, h: string, mi: string, s: string, ms: string)
    requires IsoPieces(y, mo, d, h, mi, s, ms)
    ensures ZipName(name, version, Iso(y, mo, d, h, mi, s, ms))
         == ProjectName(name) + "-v" + Version(version) + "-" + (y + "-" + mo + "-" + "-" + d + h) + ".zip"
  {
    PrettyStampOfIso(y, mo, d, h, mi, s, ms);
  }

  /** The stamp the comments of scripts/release.mjs describe
      (`YYYYMMDDHHMMSS`): dashes removed as well, and fourteen characters
      kept. */
  function IntendedStamp(iso: string): (r: string)
    ensures |r| <= 14 && ':' !in r && 'T' !in r && '-' !in r
  {
    var s := Remove(iso, {':', 'T', '-'});
    var r := Slice(s, 0, 14);
    assert forall k :: 0 <= k < |r| ==> r[k] == s[k];
    r
  }

  /** The removal step for the intended stamp. */
  lemma RemoveIsoIntended(y: string, mo: string, d: string, h: string, mi: string, s: string, ms: string)
    requires var drop := {':', 'T', '-'};
      Remove(y, drop) == y && Remove(mo, drop) == mo && Remove(d, drop) == d
      && Remove(h, drop) == h && Remove(mi, drop) == mi && Remove(s, drop) == s
      && Remove(ms, drop) == ms
    ensures Remove(Iso(y, mo, d, h, mi, s, ms), {':', 'T', '-'})
         == y + mo + d + h + mi + s + "." + ms + "Z"
  {
    var drop := {':', 'T', '-'};
    assert Remove("-", drop) == "";
    assert Remove("T", drop) == "";
    assert Remove(":", drop) == "";
    assert Remove(".", drop) == ".";
    assert Remove("Z", drop) == "Z";
    var a1 := y + "-";
    RemoveSnocDropped(y, "-", y, drop);
    var a2, k2 := a1 + mo, y + mo;
    RemoveSnocKept(a1, mo, y, drop);
    var a3 := a2 + "-";
    RemoveSnocDropped(a2, "-", k2, drop);
    var a4, k4 := a3 + d, k2 + d;
    RemoveSnocKept(a3, d, k2, drop);
    var a5 := a4 + "T";
    RemoveSnocDropped(a4, "T", k4, drop);
    var a6, k6 := a5 + h, k4 + h;
    RemoveSnocKept(a5, h, k4, drop);
    var a7 := a6 + ":";
    RemoveSnocDropped(a6, ":", k6, drop);
    var a8, k8 := a7 + mi, k6 + mi;
    RemoveSnocKept(a7, mi, k6, drop);
    var a9 := a8 + ":";
    RemoveSnocDropped(a8, ":", k8, drop);
    var a10, k10 := a9 + s, k8 + s;
    RemoveSnocKept(a9, s, k8, drop);
    var a11, k11 := a10 + ".", k10 + ".";
    RemoveSnocKept(a10, ".", k10, drop);
    var a12, k12 := a11 + ms, k11 + ms;
    RemoveSnocKept(a11, ms, k11, drop);
    RemoveSnocKept(a12, "Z", k12, drop);
  }

  /** The corrected pretty stamp is `YYYYMMDD-HHMM`, as the comments of
      scripts/release.mjs say. */
  lemma IntendedPrettyStampOfIso(y: string, mo: string, d: string, h: string, mi: string, s: string, ms: string)
    requires IsoPieces(y, mo, d, h, mi, s, ms)
    ensures PrettyStamp(IntendedStamp(Iso(y, mo, d, h, mi, s, ms))) == y + mo + d + "-" + h + mi
  {
    var drop := {':', 'T', '-'};
    RemoveDigits(y, 4, drop);
    RemoveDigits(mo, 2, drop);
    RemoveDigits(d, 2, drop);
    RemoveDigits(h, 2, drop);
    RemoveDigits(mi, 2, drop);
    RemoveDigits(s, 2, drop);
    RemoveDigits(ms, 3, drop);
    RemoveIsoIntended(y, mo, d, h, mi, s, ms);
    var st := y + mo + d + h + mi + s;
    assert IntendedStamp(Iso(y, mo, d, h, mi, s, ms)) == st by {
      var kept := y + mo + d + h + mi + s + "." + ms + "Z";
      assert kept[0..14] == st;
    }
    assert st[0..8] == y + mo + d;
    assert st[8..12] == h + mi;
  }

  /** The twelve patterns of the exclusion list, in order. */
  const ExcludePatterns: seq<string> := [
    "node_modules/*", "dist/*", "backup/*", "release/*", ".git/*", ".vscode/*",
    ".idea/*", "**/.DS_Store", ".DS_Store", "npm-debug.log*", "yarn-*.log",
    "pnpm-debug.log*"]

  /** `-x "<p>"`. */
  function ExcludeArg(p: string): (r: string)
    ensures |r| == |p| + 5 && r[..4] == "-x \"" && r[4..|r| - 1] == p && r[|r| - 1] == '"'
  {
    var r := "-x \"" + p + "\"";
    assert r[4..|r| - 1] == p;
    r
  }

  /** `patterns.map(p => `-x "${p}"`)`. */
  function ExcludeArgs(ps: seq<string>): (r: seq<string>)
    ensures |r| == |ps| && forall k :: 0 <= k < |ps| ==> r[k] == ExcludeArg(ps[k])
  {
    if ps == [] then [] else [ExcludeArg(ps[0])] + ExcludeArgs(ps[1..])
  }

  /** `….join(" ")`: the exclusion string handed to `zip`. */
  function Exclude(ps: seq<string>): string {
    Join(ExcludeArgs(ps), " ")
  }

  /** Reading an exclusion string back: `-x "`, a pattern up to the next
      quote, and then either the end or a space and more arguments. */
  function ReadArgs(s: string): (r: Option<seq<string>>)
    ensures r.Some? ==> |r.value| > 0
    decreases |s|
  {
    if !StartsWith(s, "-x \"") then None
    else match CharFrom(s, 4, '"')
      case None => None
      case Some(q) =>
        if q + 1 == |s| then Some([s[4..q]])
        else if s[q + 1] != ' ' then None
        else match ReadArgs(s[q + 2..])
          case None => None
          case Some(ps) => Some([s[4..q]] + ps)
  }

  /** The quote closing a pattern is the first one after it. */
  lemma QuoteAfter(p: string, rest: string)
    requires '"' !in p
    ensures CharFrom("-x \"" + p + "\"" + rest, 4, '"') == Some(4 + |p|)
    decreases |p|
  {
    var s := "-x \"" + p + "\"" + rest;
    CharFromIs(s, 4, 4 + |p|, '"');
  }

  /** The exclusion string reads back as the patterns it was made of,
      provided none of them holds a quote. */
  lemma {:induction false} ExcludeRoundTrip(ps: seq<string>)
    requires |ps| > 0 && forall k :: 0 <= k < |ps| ==> '"' !in ps[k]
    ensures ReadArgs(Exclude(ps)) == Some(ps)
    decreases |ps|
  {
    var args := ExcludeArgs(ps);
    if |ps| == 1 {
      assert Exclude(ps) == ExcludeArg(ps[0]);
      ReadLastArg(ps[0]);
      assert [ps[0]] == ps;
    } else {
      assert args[1..] == ExcludeArgs(ps[1..]);
      assert Exclude(ps) == ExcludeArg(ps[0]) + " " + Exclude(ps[1..]);
      ExcludeRoundTrip(ps[1..]);
      ReadNextArg(ps[0], Exclude(ps[1..]), ps[1..]);
      assert ps == [ps[0]] + ps[1..];
    }
  }

  /** The last argument reads back as its pattern. */
  lemma {:induction false} ReadLastArg(p: string)
    requires '"' !in p
    ensures ReadArgs(ExcludeArg(p)) == Some([p])
  {
    var head := ExcludeArg(p);
    QuoteAfter(p, "");
    assert head == "-x \"" + p + "\"" + "";
    assert head[4..4 + |p|] == p;
  }

  /** An argument followed by a space and more arguments reads back as
      its pattern in front of theirs. */
  lemma {:induction false} ReadNextArg(p: string, tail: string, ts: seq<string>)
    requires '"' !in p && ReadArgs(tail) == Some(ts)
    ensures ReadArgs(ExcludeArg(p) + " " + tail) == Some([p] + ts)
  {
    var s := ExcludeArg(p) + " " + tail;
    assert s == "-x \"" + p + "\"" + (" " + tail);
    QuoteAfter(p, " " + tail);
    var q := 4 + |p|;
    assert s[4..q] == p;
    assert s[q + 2..] == tail;
  }

  /** `zip` receives each of the twelve patterns, in order. */
  lemma ExcludeReadsBack()
    ensures ReadArgs(Exclude(ExcludePatterns)) == Some(ExcludePatterns)
  {
    ExcludeRoundTrip(ExcludePatterns);
  }
}
