/** The contract between scripts/build.mjs and scripts/images.mjs: every
    URL a `<picture>` element links for an image under `img/` names a file
    the derivative generator writes for that image. */
module NamingContract {
  import opened Text
  import opened Paths
  import opened Pictures
  import opened PictureFacts
  import Derivatives

  /** The URL of a derivative is the output root's public prefix followed
      by the output path of the same name, width and format. */
  lemma MakePathIsOutPath(img: Img, w: nat, f: string)
    ensures MakePath("", img, w, f)
         == "/assets/img/" + Derivatives.OutPath(Derivatives.Output(img.dir, Derivatives.Derived(img.name, w, "." + f)))
  {
    var sub := if img.dir != "" then img.dir + "/" else "";
    var file := Derivatives.Derived(img.name, w, "." + f);
    MakePathShape(img, w, f);
    Regroup("/assets/img/", sub, img.name, NatToString(w), f, file);
    assert Derivatives.OutPath(Derivatives.Output(img.dir, file)) == sub + file;
  }

  lemma MakePathShape(img: Img, w: nat, f: string)
    ensures MakePath("", img, w, f)
         == "/assets/img/" + (if img.dir != "" then img.dir + "/" else "") + img.name + "-" + NatToString(w) + "." + f
  {
  }

  lemma Regroup(pre: string, sub: string, name: string, n: string, f: string, file: string)
    requires file == name + "-" + n + ("." + f)
    ensures pre + sub + name + "-" + n + "." + f == pre + (sub + file)
  {
    var c := name + "-" + n;
    ConcatAssoc(c, ".", f);
    assert file == c + "." + f;
    ConcatAssoc(pre + sub, c + ".", f);
    ConcatAssoc(pre, sub, file);
    assert pre + sub + name + "-" + n == pre + sub + c by {
      ConcatAssoc(pre + sub, name + "-", n);
      ConcatAssoc(pre + sub, name, "-");
    }
  }

  /** The fields of `Describe` the derivative names depend on. */
  lemma DescribeFields(full: string, src: string)
    ensures Describe(full, src).dir == CleanDir(Parse(src).dir)
    ensures Describe(full, src).name == Parse(src).name
    ensures Describe(full, src).fallbackExt == FallbackFormat(SourceExt(Parse(src).ext))
  {
  }

  /** The directory below `img/` survives `CleanDir`. */
  lemma CleanImgDir(dir: string)
    ensures CleanDir(if dir == "" then "img" else "img/" + dir) == dir
  {
    var d := if dir == "" then "img" else "img/" + dir;
    assert StartsWith(d, "img");
    assert dir != "" ==> d[3..] == "/" + dir;
  }

  /** A raster extension is its own fallback format. */
  lemma RasterFallback(ext: string)
    requires Derivatives.IsRasterExt(ext)
    ensures "." + FallbackFormat(SourceExt(ext)) == ext
  {
    assert LowerAll(ext[1..]) == ext[1..];
  }

  /** The `src` of an image `name + ext` in `img/dir` (or directly in
      `img/` when `dir` is empty). */
  function SourceUrl(dir: string, name: string, ext: string): string {
    Format(if dir == "" then "img" else "img/" + dir, name, ext)
  }

  /** What `transformImages` extracts from such a `src`: the directory
      below `img/`, the name and the extension as fallback format. */
  lemma DescribeSource(full: string, dir: string, name: string, ext: string)
    requires dir == "" || dir[|dir| - 1] != '/'
    requires name != [] && '/' !in name
    requires Derivatives.IsRasterExt(ext)
    ensures var img := Describe(full, SourceUrl(dir, name, ext));
      img.dir == dir && img.name == name && "." + img.fallbackExt == ext
  {
    var d := if dir == "" then "img" else "img/" + dir;
    Derivatives.RasterIsExtension(ext);
    ParseFormat(d, name, ext);
    DescribeFields(full, SourceUrl(dir, name, ext));
    CleanImgDir(dir);
    RasterFallback(ext);
  }

  /** Which of the twelve outputs the `m`-th URL of a `<picture>` names:
      the AVIF set, then the WebP set, then the fallback at width 1200. */
  function Slot(m: nat): (k: nat)
    requires m < 9
    ensures k < 12
  {
    if m < 4 then 3 * m + 2 else if m < 8 then 3 * (m - 4) + 1 else 6
  }

  /** Every URL of the `<picture>` built for `img/dir/name.ext` is the
      public path of a file `images.mjs` writes for `dir/name.ext`. */
  lemma PictureUrlsAreWritten(full: string, dir: string, name: string, ext: string)
    requires dir == "" || dir[|dir| - 1] != '/'
    requires name != [] && '/' !in name
    requires Derivatives.IsRasterExt(ext)
    ensures var img := Describe(full, SourceUrl(dir, name, ext));
      var urls := UrlsOf(Template(img));
      var outs := Derivatives.ForSource(Parse(Format(dir, name, ext)));
      |urls| == 9 && |outs| == 12
      && forall m :: 0 <= m < 9 ==>
           MakePath("", img, urls[m].0, urls[m].1) == "/assets/img/" + Derivatives.OutPath(outs[Slot(m)])
  {
    DescribeSource(full, dir, name, ext);
    Derivatives.RasterIsExtension(ext);
    ParseFormat(dir, name, ext);
    PictureUrlsMatch(Describe(full, SourceUrl(dir, name, ext)), Parse(Format(dir, name, ext)));
  }

  /** The URLs of a `<picture>` against the outputs of a source with the
      same directory, name and extension. */
  lemma PictureUrlsMatch(img: Img, p: Parsed)
    requires img.dir == p.dir && img.name == p.name && "." + img.fallbackExt == p.ext
    ensures var urls := UrlsOf(Template(img));
      var outs := Derivatives.ForSource(p);
      |urls| == 9 && |outs| == 12
      && forall m :: 0 <= m < 9 ==>
           MakePath("", img, urls[m].0, urls[m].1) == "/assets/img/" + Derivatives.OutPath(outs[Slot(m)])
  {
    var urls := UrlsOf(Template(img));
    TemplateUrls(img);
    forall m | 0 <= m < 9
      ensures MakePath("", img, urls[m].0, urls[m].1)
           == "/assets/img/" + Derivatives.OutPath(Derivatives.ForSource(p)[Slot(m)])
    {
      PictureUrlAt(img, p, m);
    }
    Derivatives.ForSourceLayout(p, 0, 0);
  }

  /** One URL of the `<picture>` against its slot. */
  lemma PictureUrlAt(img: Img, p: Parsed, m: nat)
    requires m < 9 && img.dir == p.dir && img.name == p.name && "." + img.fallbackExt == p.ext
    ensures var urls := UrlsOf(Template(img));
      |urls| == 9 && MakePath("", img, urls[m].0, urls[m].1)
                     == "/assets/img/" + Derivatives.OutPath(Derivatives.ForSource(p)[Slot(m)])
  {
    var i := if m < 4 then m else if m < 8 then m - 4 else 2;
    var j := if m < 4 then 2 else if m < 8 then 1 else 0;
    var u := UrlAt(img, m);
    SlotOf(m, i, j);
    Derivatives.ForSourceLayout(p, i, j);
    WidthAndFormat(img.fallbackExt, p.ext, m, u, i, j);
    MakePathIsOutPath(img, u.0, u.1);
  }

  /** The `m`-th URL of a `<picture>`. */
  function UrlAt(img: Img, m: nat): (u: (nat, string))
    requires m < 9
    ensures |UrlsOf(Template(img))| == 9 && UrlsOf(Template(img))[m] == u
  {
    TemplateUrls(img);
    if m < 4 then (Widths[m], "avif") else if m < 8 then (Widths[m - 4], "webp") else (FallbackWidth, img.fallbackExt)
  }

  lemma SlotOf(m: nat, i: nat, j: nat)
    requires m < 9
    requires i == (if m < 4 then m else if m < 8 then m - 4 else 2)
    requires j == (if m < 4 then 2 else if m < 8 then 1 else 0)
    ensures i < 4 && j < 3 && Slot(m) == 3 * i + j
  {
  }

  /** The width and format of a URL are those of its slot. */
  lemma WidthAndFormat(fallback: string, ext: string, m: nat, u: (nat, string), i: nat, j: nat)
    requires m < 9 && "." + fallback == ext
    requires u == (if m < 4 then (Widths[m], "avif") else if m < 8 then (Widths[m - 4], "webp") else (FallbackWidth, fallback))
    requires i == (if m < 4 then m else if m < 8 then m - 4 else 2)
    requires j == (if m < 4 then 2 else if m < 8 then 1 else 0)
    ensures i < 4 && j < 3
    ensures u.0 == Derivatives.ImageWidths[i] && "." + u.1 == Derivatives.FormatAt(ext, j)
  {
  }

  /** The source itself is one `images.mjs` selects, unless a segment of
      its path is hidden. */
  lemma SourceIsSelected(dir: string, name: string, ext: string)
    requires Derivatives.IsRasterExt(ext)
    requires !Derivatives.Glob.HasHiddenSegment(Format(dir, name, ext))
    ensures Derivatives.IsRasterSource(Format(dir, name, ext))
  {
    var rel := Format(dir, name, ext);
    assert rel[|rel| - |ext|..] == ext;
  }
}
