/** The naming scheme of scripts/images.mjs: every JPEG or PNG source
    under the source root yields, for each of four widths, a resized copy
    in its own format, a WebP and an AVIF, written to the same relative
    directory under the output root. Only the names are modelled; the
    directory walk is a parameter and the encoding is left out. */
module Derivatives {
  import opened Text
  import opened Paths
  import Glob

  /** `WIDTHS`. */
  const ImageWidths: seq<nat> := [480, 768, 1200, 1920]

  /** A file name extension the source pattern accepts: `jpg`, `jpeg` or
      `png`, matched case-sensitively. */
  predicate IsRasterExt(ext: string) {
    ext == ".jpg" || ext == ".jpeg" || ext == ".png"
  }

  /** Each of them is an extension in the sense of `path.parse`. */
  lemma RasterIsExtension(ext: string)
    requires IsRasterExt(ext)
    ensures IsExtension(ext)
  {
    assert ".jpg"[1..] == "jpg" && ".jpeg"[1..] == "jpeg" && ".png"[1..] == "png";
  }

  /** A path relative to the source root that the pattern selects: it ends
      in one of the extensions and no segment of it is hidden. */
  predicate IsRasterSource(rel: string) {
    (EndsWith(rel, ".jpg") || EndsWith(rel, ".jpeg") || EndsWith(rel, ".png"))
    && !Glob.HasHiddenSegment(rel)
  }

  /** The sources, in the order the walk lists them. */
  function Sources(files: seq<string>): (r: seq<string>)
    ensures forall k :: 0 <= k < |r| ==> IsRasterSource(r[k]) && r[k] in files
    ensures forall f :: f in files && IsRasterSource(f) ==> f in r
  {
    Glob.Select(files, IsRasterSource)
  }

  /** The sources keep the walk's order: a path between two listings is
      one of the results exactly when it is a source, and it comes after
      every result from the first listing and before every result from
      the second. */
  lemma SourcesInOrder(a: seq<string>, f: string, b: seq<string>)
    ensures Sources(a + [f] + b) == Sources(a) + (if IsRasterSource(f) then [f] else []) + Sources(b)
  {
    Glob.SelectAppend(a + [f], b, IsRasterSource);
    Glob.SelectAppend(a, [f], IsRasterSource);
    Glob.SelectOne(f, IsRasterSource);
  }

  /** One output, relative to the output root: `path.join(OUT, dir, file)`
      without the root. */
  datatype Output = Output(dir: string, file: string)

  /** The output's path below the output root. */
  function OutPath(o: Output): (r: string)
    ensures EndsWith(r, o.file)
  {
    if o.dir == "" then o.file else o.dir + "/" + o.file
  }

  /** `${name}-${w}${ext}`. */
  function Derived(name: string, w: nat, ext: string): (r: string)
    ensures StartsWith(r, name) && EndsWith(r, ext)
  {
    name + "-" + NatToString(w) + ext
  }

  /** The extension of the `k`-th output at a width: the source's own,
      then WebP, then AVIF. */
  function FormatAt(ext: string, k: nat): string
    requires k < 3
  {
    [ext, ".webp", ".avif"][k]
  }

  /** The three outputs at width `w`, in the order they are written. */
  function OutputsAt(p: Parsed, w: nat): (r: seq<Output>)
    ensures |r| == 3
    ensures forall k :: 0 <= k < 3 ==> r[k] == Output(p.dir, Derived(p.name, w, FormatAt(p.ext, k)))
  {
    [Output(p.dir, Derived(p.name, w, p.ext)),
     Output(p.dir, Derived(p.name, w, ".webp")),
     Output(p.dir, Derived(p.name, w, ".avif"))]
  }

  /** The outputs over a list of widths: three per width, widths in order. */
  function OutputsOver(p: Parsed, ws: seq<nat>): (r: seq<Output>)
    ensures |r| == 3 * |ws|
    ensures forall k :: 0 <= k < |r| ==> r[k].dir == p.dir
  {
    if ws == [] then []
    else OutputsOver(p, ws[..|ws| - 1]) + OutputsAt(p, ws[|ws| - 1])
  }

  /** The outputs of one parsed source. */
  function ForSource(p: Parsed): seq<Output> {
    OutputsOver(p, ImageWidths)
  }

  /** The outputs of a list of sources, source by source. */
  function AllOf(sources: seq<string>): (r: seq<Output>)
    ensures |r| == 12 * |sources|
  {
    if sources == [] then []
    else AllOf(sources[..|sources| - 1]) + ForSource(Parse(sources[|sources| - 1]))
  }

  /** Everything `main` writes, given the files the walk lists. */
  function AllOutputs(files: seq<string>): seq<Output> {
    AllOf(Sources(files))
  }

  /** The loops of `main`: for each source, for each width, the fallback,
      the WebP and the AVIF, appended to the list of written files. */
  method Generate(files: seq<string>) returns (outs: seq<Output>)
    ensures outs == AllOutputs(files)
  {
    outs := EmitAll(Sources(files));
  }

  /** The outer loop of `main`, over the selected sources in order. */
  method EmitAll(sources: seq<string>) returns (outs: seq<Output>)
    ensures outs == AllOf(sources)
  {
    outs := [];
    for i := 0 to |sources|
      invariant outs == AllOf(sources[..i])
    {
      outs := EmitSource(outs, Parse(sources[i]));
      AllOfSnoc(sources, i);
    }
    assert sources[..|sources|] == sources;
  }

  /** The inner loop of `main` for one parsed source: for each width, the
      fallback, the WebP and the AVIF. */
  method EmitSource(done: seq<Output>, p: Parsed) returns (outs: seq<Output>)
    ensures outs == done + ForSource(p)
  {
    outs := done;
    for j := 0 to |ImageWidths|
      invariant outs == done + OutputsOver(p, ImageWidths[..j])
    {
      var w := ImageWidths[j];
      var before := outs;
      outs := outs + [Output(p.dir, Derived(p.name, w, p.ext))];
      outs := outs + [Output(p.dir, Derived(p.name, w, ".webp"))];
      outs := outs + [Output(p.dir, Derived(p.name, w, ".avif"))];
      AppendThree(before, OutputsAt(p, w));
      OutputsOverSnoc(p, ImageWidths, j);
      ConcatAssoc(done, OutputsOver(p, ImageWidths[..j]), OutputsAt(p, w));
    }
    assert ImageWidths[..|ImageWidths|] == ImageWidths;
  }

  /** Appending three outputs one by one appends the group. */
  lemma AppendThree(before: seq<Output>, group: seq<Output>)
    requires |group| == 3
    ensures before + [group[0]] + [group[1]] + [group[2]] == before + group
  {
  }

  lemma OutputsOverSnoc(p: Parsed, ws: seq<nat>, j: nat)
    requires j < |ws|
    ensures OutputsOver(p, ws[..j + 1]) == OutputsOver(p, ws[..j]) + OutputsAt(p, ws[j])
  {
    assert ws[..j + 1][..j] == ws[..j];
  }

  lemma AllOfSnoc(sources: seq<string>, i: nat)
    requires i < |sources|
    ensures AllOf(sources[..i + 1]) == AllOf(sources[..i]) + ForSource(Parse(sources[i]))
  {
    assert sources[..i + 1][..i] == sources[..i];
  }

  /** Output `3 * i + j` over a list of widths is output `j` at width
      `i`. */
  lemma {:induction false} OutputsOverAt(p: Parsed, ws: seq<nat>, i: nat, j: nat)
    requires i < |ws| && j < 3
    ensures OutputsOver(p, ws)[3 * i + j] == OutputsAt(p, ws[i])[j]
    decreases |ws|
  {
    var init := ws[..|ws| - 1];
    if i < |ws| - 1 {
      OutputsOverAt(p, init, i, j);
    }
  }

  /** Each source gives twelve outputs, in the directory it came from:
      width by width in ascending order, and at each width the fallback in
      the source's own extension, then WebP, then AVIF. */
  lemma ForSourceLayout(p: Parsed, i: nat, j: nat)
    requires i < 4 && j < 3
    ensures |ForSource(p)| == 12
    ensures ForSource(p)[3 * i + j] == Output(p.dir, Derived(p.name, ImageWidths[i], FormatAt(p.ext, j)))
  {
    OutputsOverAt(p, ImageWidths, i, j);
  }

  /** The run of leading decimal digits. */
  function DigitPrefix(s: string): (r: nat)
    ensures r <= |s|
  {
    if s == [] || !('0' <= s[0] <= '9') then 0 else 1 + DigitPrefix(s[1..])
  }

  lemma {:induction false} DigitPrefixOf(d: string, e: string)
    requires forall k :: 0 <= k < |d| ==> '0' <= d[k] <= '9'
    requires e == [] || e[0] == '.'
    ensures DigitPrefix(d + e) == |d|
  {
    if d != [] {
      assert (d + e)[1..] == d[1..] + e;
      DigitPrefixOf(d[1..], e);
    } else {
      assert d + e == e;
    }
  }

  /** Digits followed by nothing or by an extension split in one way only. */
  lemma DigitsSplit(d1: string, e1: string, d2: string, e2: string)
    requires forall k :: 0 <= k < |d1| ==> '0' <= d1[k] <= '9'
    requires forall k :: 0 <= k < |d2| ==> '0' <= d2[k] <= '9'
    requires (e1 == [] || e1[0] == '.') && (e2 == [] || e2[0] == '.')
    requires d1 + e1 == d2 + e2
    ensures d1 == d2 && e1 == e2
  {
    DigitPrefixOf(d1, e1);
    DigitPrefixOf(d2, e2);
    assert d1 == (d1 + e1)[..|d1|] && d2 == (d2 + e2)[..|d2|];
    assert e1 == (d1 + e1)[|d1|..] && e2 == (d2 + e2)[|d2|..];
  }

  /** What follows the name and its dash. */
  lemma DerivedTail(name: string, w: nat, e: string)
    ensures |name| + 1 <= |Derived(name, w, e)|
    ensures Derived(name, w, e)[|name| + 1..] == NatToString(w) + e
  {
    assert Derived(name, w, e) == (name + "-") + (NatToString(w) + e);
  }

  /** A derived name gives back its width and extension. */
  lemma DerivedInjective(name: string, w1: nat, e1: string, w2: nat, e2: string)
    requires e1 == [] || e1[0] == '.'
    requires e2 == [] || e2[0] == '.'
    requires Derived(name, w1, e1) == Derived(name, w2, e2)
    ensures w1 == w2 && e1 == e2
  {
    DerivedTail(name, w1, e1);
    DerivedTail(name, w2, e2);
    DigitsSplit(NatToString(w1), e1, NatToString(w2), e2);
    NatToStringInjective(w1, w2);
  }

  /** The twelve names for one source differ pairwise, as long as its own
      extension is neither `.webp` nor `.avif`: two slots hold the same
      name only if they are the same slot. */
  lemma ForSourceDistinct(p: Parsed, i1: nat, j1: nat, i2: nat, j2: nat)
    requires p.ext == [] || p.ext[0] == '.'
    requires p.ext != ".webp" && p.ext != ".avif"
    requires i1 < 4 && j1 < 3 && i2 < 4 && j2 < 3
    ensures ForSource(p)[3 * i1 + j1] == ForSource(p)[3 * i2 + j2] ==> i1 == i2 && j1 == j2
  {
    ForSourceLayout(p, i1, j1);
    ForSourceLayout(p, i2, j2);
    if ForSource(p)[3 * i1 + j1] == ForSource(p)[3 * i2 + j2] {
      DerivedInjective(p.name, ImageWidths[i1], FormatAt(p.ext, j1), ImageWidths[i2], FormatAt(p.ext, j2));
      WidthsDistinct(i1, i2);
      FormatsDistinct(p.ext, j1, j2);
    }
  }

  /** The four widths differ. */
  lemma WidthsDistinct(i1: nat, i2: nat)
    requires i1 < 4 && i2 < 4
    ensures ImageWidths[i1] == ImageWidths[i2] ==> i1 == i2
  {
  }

  /** The three extensions at a width differ, unless the source's own is
      `.webp` or `.avif`. */
  lemma FormatsDistinct(ext: string, j1: nat, j2: nat)
    requires ext != ".webp" && ext != ".avif"
    requires j1 < 3 && j2 < 3
    ensures FormatAt(ext, j1) == FormatAt(ext, j2) ==> j1 == j2
  {
    assert ".webp"[1] != ".avif"[1];
  }

  /** Where a source's extension starts, and what surrounds it. */
  lemma RasterTail(rel: string, ext: string)
    requires IsRasterExt(ext) && EndsWith(rel, ext) && !Glob.HasHiddenSegment(rel)
    ensures var n := |rel| - |ext|;
      0 < n < |rel| - 1 && rel[n] == '.' && rel[n - 1] != '/'
      && forall k :: n < k < |rel| ==> rel[k] != '.' && rel[k] != '/'
  {
    var n := |rel| - |ext|;
    assert rel[n..] == ext;
    assert rel[n] == '.';
    Glob.VisibleDot(rel, n);
    assert forall k :: n < k < |rel| ==> rel[k] == ext[k - n];
  }

  /** The segment holding a source's file name starts before its
      extension's dot. */
  lemma BaseBeforeDot(rel: string, n: nat, isAbs: bool, start: nat)
    requires 0 < n < |rel| - 1 && rel[n] == '.' && rel[n - 1] != '/'
    requires forall k :: n < k < |rel| ==> rel[k] != '/'
    requires isAbs == (rel[0] == '/') && start == (if isAbs then 1 else 0)
    ensures var slash := LastIndexOf(rel, '/', start, |rel|);
      var startPart := if slash.Some? then slash.value + 1 else 0;
      (if startPart == 0 && isAbs then 1 else startPart) < n
  {
  }

  /** `path.parse` finds the extension at a dot that follows a character
      of the file name and is followed by no dot and no slash. */
  lemma ParseExtAt(rel: string, n: nat)
    requires 0 < n < |rel| - 1 && rel[n] == '.' && rel[n - 1] != '/'
    requires forall k :: n < k < |rel| ==> rel[k] != '.' && rel[k] != '/'
    ensures Parse(rel).ext == rel[n..]
  {
    var isAbs := |rel| > 0 && rel[0] == '/';
    var start := if isAbs then 1 else 0;
    NoTrailingSlash(rel, start);
    var slash := LastIndexOf(rel, '/', start, |rel|);
    var startPart := if slash.Some? then slash.value + 1 else 0;
    assert Parse(rel) == ParseSegment(rel, isAbs, |rel|, startPart);
    BaseBeforeDot(rel, n, isAbs, start);
    var baseStart := if startPart == 0 && isAbs then 1 else startPart;
    Paths.LastIndexOfIs(rel, '.', baseStart, |rel|, n);
    SegmentExt(rel, isAbs, |rel|, startPart, n);
  }

  /** `path.parse` of a source gives the extension it was selected by. */
  lemma RasterParse(rel: string, ext: string)
    requires IsRasterExt(ext) && EndsWith(rel, ext) && !Glob.HasHiddenSegment(rel)
    ensures Parse(rel).ext == ext
  {
    RasterTail(rel, ext);
    ParseExtAt(rel, |rel| - |ext|);
  }

  /** A source's own extension is one of the three it was selected by. */
  lemma SourceExtension(rel: string)
    requires IsRasterSource(rel)
    ensures IsRasterExt(Parse(rel).ext)
  {
    if EndsWith(rel, ".jpg") {
      RasterParse(rel, ".jpg");
    } else if EndsWith(rel, ".jpeg") {
      RasterParse(rel, ".jpeg");
    } else {
      RasterParse(rel, ".png");
    }
  }

  /** So the names written for one source never collide with each other. */
  lemma SourceOutputsDistinct(rel: string, i1: nat, j1: nat, i2: nat, j2: nat)
    requires IsRasterSource(rel)
    requires i1 < 4 && j1 < 3 && i2 < 4 && j2 < 3
    ensures var outs := ForSource(Parse(rel));
      outs[3 * i1 + j1] == outs[3 * i2 + j2] ==> i1 == i2 && j1 == j2
  {
    SourceExtension(rel);
    ForSourceDistinct(Parse(rel), i1, j1, i2, j2);
  }

  /** Two sources that differ only in their extension (`hero.jpg` and
      `hero.png` side by side) are written to the same WebP and AVIF
      names, so the later one replaces the earlier one's files. */
  lemma SameStemSharesModernFormats(p: Parsed, q: Parsed, i: nat, j: nat)
    requires p.dir == q.dir && p.name == q.name
    requires i < 4 && 1 <= j < 3
    ensures ForSource(p)[3 * i + j] == ForSource(q)[3 * i + j]
  {
    ForSourceLayout(p, i, j);
    ForSourceLayout(q, i, j);
  }

  /** Every output belongs to one of the sources and lies in its directory;
      every source contributes all of its outputs. */
  lemma {:induction false} AllOfMembers(sources: seq<string>)
    ensures forall o :: o in AllOf(sources) <==> exists s :: s in sources && o in ForSource(Parse(s))
    decreases |sources|
  {
    if sources != [] {
      var init := sources[..|sources| - 1];
      var last := sources[|sources| - 1];
      AllOfMembers(init);
      assert sources == init + [last];
      forall o | o in AllOf(sources)
        ensures exists s :: s in sources && o in ForSource(Parse(s))
      {
        if o in AllOf(init) {
          var s :| s in init && o in ForSource(Parse(s));
          assert s in sources;
        } else {
          assert last in sources;
        }
      }
      forall o, s | s in sources && o in ForSource(Parse(s))
        ensures o in AllOf(sources)
      {
        if s == last {
        } else {
          assert s in init;
        }
      }
    }
  }
}
