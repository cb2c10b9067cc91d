/** `buildSitemap` of scripts/build.mjs: the pages of a built site become
    `<url>` entries of a sitemap. The directory walk is a parameter (the
    paths `fast-glob` lists, in its order) and so is the clock (an ISO
    string); writing the file is not modelled. */
module Sitemap {
  import opened Text
  import opened IsoDate
  import Glob

  // The glob patterns of the sitemap: any `.html` file, but nothing under
  // `partials/` and no `404.html`. A wildcard never matches a hidden
  // segment.
  /** An HTML file outside hidden directories and `partials/` that is not
      a 404 page. */
  predicate IsPage(p: string) {
    EndsWith(p, ".html") && !Glob.HasHiddenSegment(p) && !StartsWith(p, "partials/")
    && Glob.BaseName(p) != "404.html"
  }

  /** The pages, in the order the walk lists them. */
  function Pages(files: seq<string>): (r: seq<string>)
    ensures forall k :: 0 <= k < |r| ==> IsPage(r[k]) && r[k] in files
    ensures forall f :: f in files && IsPage(f) ==> f in r
  {
    Glob.Select(files, IsPage)
  }

  /** The pages keep the walk's order: a path between two listings is
      one of the results exactly when it is a page, and it comes after
      every result from the first listing and before every result from
      the second. */
  lemma PagesInOrder(a: seq<string>, f: string, b: seq<string>)
    ensures Pages(a + [f] + b) == Pages(a) + (if IsPage(f) then [f] else []) + Pages(b)
  {
    Glob.SelectAppend(a + [f], b, IsPage);
    Glob.SelectAppend(a, [f], IsPage);
    Glob.SelectOne(f, IsPage);
  }

  /** `p.replace(/index\.html$/, "")`. */
  function StripIndex(p: string): (r: string)
    ensures |r| <= |p| && StartsWith(p, r)
  {
    if EndsWith(p, "index.html") then p[..|p| - 10] else p
  }

  /** `.replace(/\/$/, "")`. */
  function StripSlash(a: string): (r: string)
    ensures |r| <= |a| && StartsWith(a, r)
  {
    if a != [] && a[|a| - 1] == '/' then a[..|a| - 1] else a
  }

  /** The URL path of a page: the index file name dropped, then one
      trailing slash, then rooted, and always ending in a slash. */
  function Loc(p: string): (r: string)
    ensures |r| >= 1 && r[0] == '/' && r[|r| - 1] == '/'
    ensures |r| <= |p| + 2
  {
    var u := "/" + StripSlash(StripIndex(p));
    if u == "/" then "/" else u + "/"
  }

  /** The `href` of a page: the URL path, under `PROJECT_BASE` when the
      build is for the base-path target. */
  function Href(withBase: bool, base: string, p: string): (r: string)
    ensures EndsWith(r, Loc(p))
  {
    if withBase then base + Loc(p) else Loc(p)
  }

  /** `new Date().toISOString().split("T")[0]`. */
  function Lastmod(iso: string): (r: string)
    ensures 'T' !in r && StartsWith(iso, r)
  {
    BeforeFirst(iso, 'T')
  }

  const UrlOpen := "  <url><loc>"
  const LocClose := "</loc><lastmod>"
  const UrlClose := "</lastmod></url>"
  const XmlHead := "<?xml version=\"1.0\" encoding=\"UTF-8\"?>\n<urlset xmlns=\"http://www.sitemaps.org/schemas/sitemap/0.9\">\n"
  const XmlTail := "\n</urlset>"

  /** One `<url>` line. */
  function Entry(href: string, lastmod: string): string {
    UrlOpen + href + LocClose + lastmod + UrlClose
  }

  /** The hrefs of the pages, in order. */
  function Hrefs(pages: seq<string>, withBase: bool, base: string): (r: seq<string>)
    ensures |r| == |pages|
    ensures forall k :: 0 <= k < |r| ==> r[k] == Href(withBase, base, pages[k])
  {
    seq(|pages|, k requires 0 <= k < |pages| => Href(withBase, base, pages[k]))
  }

  /** The `<url>` lines, one per href, in order. */
  function UrlLines(hrefs: seq<string>, lastmod: string): (r: seq<string>)
    ensures |r| == |hrefs|
    ensures forall k :: 0 <= k < |r| ==> r[k] == Entry(hrefs[k], lastmod)
  {
    if hrefs == [] then [] else [Entry(hrefs[0], lastmod)] + UrlLines(hrefs[1..], lastmod)
  }

  /** The sitemap document for the given hrefs. */
  function SitemapXml(hrefs: seq<string>, lastmod: string): string {
    XmlHead + Join(UrlLines(hrefs, lastmod), "\n") + XmlTail
  }

  /** `buildSitemap(targetDir, withBase, PROJECT_BASE)`: the text written
      to `sitemap.xml`, given the files under `targetDir` and the clock. */
  function BuildSitemap(files: seq<string>, withBase: bool, base: string, iso: string): string {
    SitemapXml(Hrefs(Pages(files), withBase, base), Lastmod(iso))
  }

  /** The root index page is the site root. */
  lemma LocRoot()
    ensures Loc("index.html") == "/"
  {
    assert EndsWith("index.html", "index.html");
  }

  /** `dir/index.html` is served as `/dir/`. */
  lemma LocIndexPage(dir: string)
    requires dir != []
    ensures Loc(dir + "/index.html") == "/" + dir + "/"
  {
    var p := dir + "/index.html";
    assert EndsWith(p, "index.html");
    assert StripIndex(p) == dir + "/";
    assert StripSlash(dir + "/") == dir;
  }

  /** Any other page keeps its file name and gains a trailing slash:
      `about.html` is served as `/about.html/`. */
  lemma LocPlain(p: string)
    requires p != [] && p[|p| - 1] != '/' && !EndsWith(p, "index.html")
    ensures Loc(p) == "/" + p + "/"
  {
  }

  /** The index file name is dropped even when it is only the end of a
      longer name: `myindex.html` and `my/index.html` share the URL `/my/`. */
  lemma LocNameEndingInIndex(q: string)
    requires q != [] && q[|q| - 1] != '/'
    ensures Loc(q + "index.html") == "/" + q + "/" == Loc(q + "/index.html")
  {
    var p := q + "index.html";
    assert EndsWith(p, "index.html");
    assert StripIndex(p) == q;
    LocIndexPage(q);
  }

  /** The index file name dropped only where it is a whole file name:
      the root `index.html` or a path ending in `/index.html`. */
  function StripIndexFile(p: string): (r: string)
    ensures |r| <= |p| && StartsWith(p, r)
    ensures r != p <==> p == "index.html" || EndsWith(p, "/index.html")
  {
    if p == "index.html" || EndsWith(p, "/index.html") then p[..|p| - 10] else p
  }

  /** The URL path as the comment beside it describes it
      (`foo/index.html -> foo/`): only an index file is served as its
      directory. */
  function LocFixed(p: string): (r: string)
    ensures |r| >= 1 && r[0] == '/' && r[|r| - 1] == '/'
    ensures |r| <= |p| + 2
  {
    var u := "/" + StripSlash(StripIndexFile(p));
    if u == "/" then "/" else u + "/"
  }

  /** The corrected URL path differs from the one written only for a
      name that ends in `index.html` without being an index file. */
  lemma LocFixedAgrees(p: string)
    requires !EndsWith(p, "index.html") || p == "index.html" || EndsWith(p, "/index.html")
    ensures LocFixed(p) == Loc(p)
  {
    if p == "index.html" || EndsWith(p, "/index.html") {
      assert EndsWith(p, "index.html") by {
        if p != "index.html" {
          assert p[|p| - 10..] == p[|p| - 11..][1..];
        }
      }
    }
  }

  /** With the correction, `myindex.html` is served under its own name,
      apart from the directory `my/`. */
  lemma LocFixedKeepsName(q: string)
    requires q != [] && q[|q| - 1] != '/'
    ensures LocFixed(q + "index.html") == "/" + q + "index.html/"
    ensures LocFixed(q + "/index.html") == "/" + q + "/"
    ensures LocFixed(q + "index.html") != LocFixed(q + "/index.html")
  {
    LocFixedOwnName(q);
    LocFixedIndexFile(q);
    var a := "/" + q + "index.html/";
    var b := "/" + q + "/";
    assert a[|q| + 1] == 'i' && b[|q| + 1] == '/';
  }

  /** A name that only ends in `index.html` keeps it. */
  lemma LocFixedOwnName(q: string)
    requires q != [] && q[|q| - 1] != '/'
    ensures LocFixed(q + "index.html") == "/" + q + "index.html/"
  {
    var p := q + "index.html";
    assert p != "index.html" by { assert |p| > 10; }
    assert !EndsWith(p, "/index.html") by {
      assert p[|p| - 11] == q[|q| - 1];
    }
    assert StripIndexFile(p) == p;
  }

  /** `dir/index.html` is served as `/dir/`. */
  lemma LocFixedIndexFile(q: string)
    requires q != []
    ensures LocFixed(q + "/index.html") == "/" + q + "/"
  {
    var d := q + "/index.html";
    assert EndsWith(d, "/index.html");
    assert StripIndexFile(d) == q + "/";
    assert StripSlash(q + "/") == q;
  }

  /** Under the base path, every href is the plain one prefixed by
      `PROJECT_BASE`. */
  lemma BaseOnlyPrefixes(base: string, p: string)
    ensures Href(true, base, p) == base + Href(false, base, p)
  {
  }

  /** Nothing under `partials/` is a page. */
  lemma PartialsAreNotPages(q: string)
    ensures !IsPage("partials/" + q)
  {
    assert StartsWith("partials/" + q, "partials/");
  }

  /** No `404.html`, at the root or in any directory, is a page. */
  lemma NotFoundIsNotAPage(d: string)
    requires d == [] || d[|d| - 1] == '/'
    ensures !IsPage(d + "404.html")
  {
    Glob.BaseNameAfterSlash(d, "404.html");
  }

  /** An HTML file in a visible, non-partial directory is a page unless it
      is a 404 page. */
  lemma VisiblePage(d: string, name: string)
    requires d == [] || d[|d| - 1] == '/'
    requires name != "404.html" && '/' !in name && EndsWith(name, ".html")
    requires !Glob.HasHiddenSegment(d + name) && !StartsWith(d + name, "partials/")
    ensures IsPage(d + name)
  {
    Glob.BaseNameAfterSlash(d, name);
    assert (d + name)[|d + name| - |name|..] == name;
  }

  /** The date of an ISO time stamp. */
  lemma LastmodOfIso(y: string, mo: string, d: string, h: string, mi: string, s: string, ms: string)
    requires IsoPieces(y, mo, d, h, mi, s, ms)
    ensures Lastmod(Iso(y, mo, d, h, mi, s, ms)) == y + "-" + mo + "-" + d
  {
    var pre := y + "-" + mo + "-" + d;
    var post := h + ":" + mi + ":" + s + "." + ms + "Z";
    assert |pre| == 10;
    assert forall k :: 0 <= k < 10 ==> pre[k] == '-' || IsDigit(pre[k]);
    assert Iso(y, mo, d, h, mi, s, ms) == pre + ['T'] + post;
    BeforeFirstAt(pre, 'T', post);
  }

  /** One `<url>` entry as a reader of the sitemap sees it. */
  datatype Url = Url(loc: string, lastmod: string)

  /** Reads one `<url>` line at the start of `s`, with the index just
      past it. */
  function ReadOne(s: string): (r: Option<(Url, nat)>)
    ensures r.Some? ==> 0 < r.value.1 <= |s|
  {
    if !StartsWith(s, UrlOpen) then None
    else match CharFrom(s, |UrlOpen|, '<')
      case None => None
      case Some(i) =>
        if !HasAt(s, i, LocClose) then None
        else match CharFrom(s, i + |LocClose|, '<')
          case None => None
          case Some(j) =>
            if !HasAt(s, j, UrlClose) then None
            else Some((Url(s[|UrlOpen|..i], s[i + |LocClose|..j]), j + |UrlClose|))
  }

  /** Reads newline-separated `<url>` lines. */
  function ReadUrls(s: string): (r: Option<seq<Url>>)
    decreases |s|
  {
    match ReadOne(s)
    case None => None
    case Some((u, t)) =>
      if t == |s| then Some([u])
      else if s[t] != '\n' then None
      else match ReadUrls(s[t + 1..])
        case None => None
        case Some(us) => Some([u] + us)
  }

  /** Reads a sitemap document back into its entries. */
  function ReadSitemap(xml: string): (r: Option<seq<Url>>) {
    if |xml| < |XmlHead| + |XmlTail| || !StartsWith(xml, XmlHead) || !EndsWith(xml, XmlTail) then None
    else
      var mid := xml[|XmlHead|..|xml| - |XmlTail|];
      if mid == [] then Some([]) else ReadUrls(mid)
  }

  /** A field free of `<` and closed by a tag is found by the search for
      the next `<`. */
  lemma FieldAt(pre: string, field: string, post: string)
    requires '<' !in field && post != [] && post[0] == '<'
    ensures |pre| + |field| < |pre + field + post|
    ensures CharFrom(pre + field + post, |pre|, '<') == Some(|pre| + |field|)
    ensures (pre + field + post)[|pre|..|pre| + |field|] == field
  {
    var s := pre + field + post;
    assert forall k :: |pre| <= k < |pre| + |field| ==> s[k] == field[k - |pre|];
    CharFromIs(s, |pre|, |pre| + |field|, '<');
  }

  /** A text holds each of its pieces where the piece starts. */
  lemma HasAtMiddle(pre: string, mid: string, post: string)
    ensures HasAt(pre + mid + post, |pre|, mid)
  {
    assert (pre + mid + post)[|pre|..|pre| + |mid|] == mid;
  }

  /** A line reads back as its href and date, whatever follows it. */
  lemma ReadOneEntry(href: string, lastmod: string, rest: string)
    requires '<' !in href && '<' !in lastmod
    ensures ReadOne(Entry(href, lastmod) + rest) == Some((Url(href, lastmod), |Entry(href, lastmod)|))
  {
    var s := Entry(href, lastmod) + rest;
    var t1 := LocClose + lastmod + UrlClose + rest;
    var pre2 := UrlOpen + href + LocClose;
    var t2 := UrlClose + rest;
    EntrySplits(href, lastmod, rest);
    FieldAt(UrlOpen, href, t1);
    FieldAt(pre2, lastmod, t2);
    HasAtMiddle(UrlOpen + href, LocClose, lastmod + UrlClose + rest);
    HasAtMiddle(pre2 + lastmod, UrlClose, rest);
    HasAtMiddle([], UrlOpen, href + t1);
  }

  /** The ways of cutting a line followed by more text that reading it
      uses. */
  lemma EntrySplits(href: string, lastmod: string, rest: string)
    ensures var s := Entry(href, lastmod) + rest;
      && s == UrlOpen + href + (LocClose + lastmod + UrlClose + rest)
      && s == UrlOpen + href + LocClose + lastmod + (UrlClose + rest)
      && s == (UrlOpen + href) + LocClose + (lastmod + UrlClose + rest)
      && s == (UrlOpen + href + LocClose + lastmod) + UrlClose + rest
      && s == [] + UrlOpen + (href + (LocClose + lastmod + UrlClose + rest))
      && |Entry(href, lastmod)| == |UrlOpen + href + LocClose + lastmod| + |UrlClose|
  {
    Regroup5(UrlOpen, href, LocClose, lastmod, UrlClose, rest);
  }

  /** Five joins regrouped. */
  lemma Regroup5(a: string, b: string, c: string, d: string, e: string, f: string)
    ensures var s := a + b + c + d + e + f;
      && s == a + b + (c + d + e + f)
      && s == a + b + c + d + (e + f)
      && s == (a + b) + c + (d + e + f)
      && s == [] + a + (b + (c + d + e + f))
  {
  }

  /** No `<` in any of the hrefs. */
  predicate PlainHrefs(hrefs: seq<string>) {
    forall k :: 0 <= k < |hrefs| ==> '<' !in hrefs[k]
  }

  /** The entries a reader expects: each href with the date, in order. */
  function Listed(hrefs: seq<string>, lastmod: string): (r: seq<Url>)
    ensures |r| == |hrefs|
    ensures forall k :: 0 <= k < |r| ==> r[k] == Url(hrefs[k], lastmod)
  {
    if hrefs == [] then [] else [Url(hrefs[0], lastmod)] + Listed(hrefs[1..], lastmod)
  }

  /** A line followed by a newline and more lines reads as the line, then
      the rest. */
  lemma ReadUrlsStep(s: string, u: Url, t: nat, us: seq<Url>)
    requires ReadOne(s) == Some((u, t)) && t < |s| && s[t] == '\n'
    requires ReadUrls(s[t + 1..]) == Some(us)
    ensures ReadUrls(s) == Some([u] + us)
  {
  }

  /** A single line reads back as its href and date. */
  lemma ReadUrlsSingle(href: string, lastmod: string)
    requires '<' !in href && '<' !in lastmod
    ensures ReadUrls(Join(UrlLines([href], lastmod), "\n")) == Some(Listed([href], lastmod))
  {
    var e := Entry(href, lastmod);
    var u := Url(href, lastmod);
    ReadOneEntry(href, lastmod, "");
    assert e + "" == e;
    var t: nat := |e|;
    assert ReadOne(e) == Some((u, t));
    assert ReadUrls(e) == Some([u]);
    assert UrlLines([href], lastmod) == [e];
    assert Listed([href], lastmod) == [u];
  }

  /** The text after a line and its newline. */
  lemma AfterLine(e: string, tail: string)
    ensures (e + ("\n" + tail))[|e|] == '\n'
    ensures (e + ("\n" + tail))[|e| + 1..] == tail
  {
  }

  /** Reading more than one line: the first, then what the rest reads as. */
  lemma ReadUrlsCons(hrefs: seq<string>, lastmod: string)
    requires |hrefs| > 1 && '<' !in hrefs[0] && '<' !in lastmod
    requires ReadUrls(Join(UrlLines(hrefs[1..], lastmod), "\n")) == Some(Listed(hrefs[1..], lastmod))
    ensures ReadUrls(Join(UrlLines(hrefs, lastmod), "\n")) == Some(Listed(hrefs, lastmod))
  {
    var lines := UrlLines(hrefs, lastmod);
    var e := Entry(hrefs[0], lastmod);
    assert lines[1..] == UrlLines(hrefs[1..], lastmod);
    var tail := Join(lines[1..], "\n");
    var s := e + ("\n" + tail);
    ConcatAssoc(e, "\n", tail);
    assert Join(lines, "\n") == s;
    ReadOneEntry(hrefs[0], lastmod, "\n" + tail);
    AfterLine(e, tail);
    ReadUrlsStep(s, Url(hrefs[0], lastmod), |e|, Listed(hrefs[1..], lastmod));
    assert Listed(hrefs, lastmod) == [Url(hrefs[0], lastmod)] + Listed(hrefs[1..], lastmod);
  }

  /** The joined lines read back as the hrefs, in order, each with the
      date. */
  lemma {:induction false} ReadUrlsJoin(hrefs: seq<string>, lastmod: string)
    requires hrefs != [] && PlainHrefs(hrefs) && '<' !in lastmod
    ensures ReadUrls(Join(UrlLines(hrefs, lastmod), "\n")) == Some(Listed(hrefs, lastmod))
    decreases |hrefs|
  {
    if |hrefs| == 1 {
      ReadUrlsSingle(hrefs[0], lastmod);
      assert [hrefs[0]] == hrefs;
    } else {
      ReadUrlsJoin(hrefs[1..], lastmod);
      ReadUrlsCons(hrefs, lastmod);
    }
  }

  /** Reading the sitemap gives back one entry per href, in order, each
      with the build date. */
  lemma SitemapRoundTrip(hrefs: seq<string>, lastmod: string)
    requires PlainHrefs(hrefs) && '<' !in lastmod
    ensures ReadSitemap(SitemapXml(hrefs, lastmod)) == Some(Listed(hrefs, lastmod))
  {
    var mid := Join(UrlLines(hrefs, lastmod), "\n");
    Framed(XmlHead, mid, XmlTail);
    if hrefs != [] {
      ReadUrlsJoin(hrefs, lastmod);
      JoinStarts(UrlLines(hrefs, lastmod), "\n");
    }
  }

  /** A text framed by a head and a tail gives back what is between. */
  lemma Framed(head: string, mid: string, tail: string)
    ensures var s := head + mid + tail;
      |s| >= |head| + |tail| && StartsWith(s, head) && EndsWith(s, tail)
      && s[|head|..|s| - |tail|] == mid
  {
    var s := head + mid + tail;
    assert s[..|head|] == head;
    assert s[|s| - |tail|..] == tail;
    assert s[|head|..|s| - |tail|] == mid;
  }

  /** A join starts with its first part. */
  lemma JoinStarts(parts: seq<string>, sep: string)
    requires parts != []
    ensures StartsWith(Join(parts, sep), parts[0])
    ensures parts[0] != [] ==> Join(parts, sep) != []
  {
  }

  /** A page path without `<` gives an href without `<`. */
  lemma HrefPlain(withBase: bool, base: string, p: string)
    requires '<' !in base && '<' !in p
    ensures '<' !in Href(withBase, base, p)
  {
    var s := StripSlash(StripIndex(p));
    PrefixFree(p, StripIndex(p));
    PrefixFree(StripIndex(p), s);
    assert Loc(p) == "/" || Loc(p) == "/" + s + "/";
  }

  /** A prefix holds no character its text does not. */
  lemma PrefixFree(p: string, s: string)
    requires StartsWith(p, s) && '<' !in p
    ensures '<' !in s
  {
    assert forall k :: 0 <= k < |s| ==> s[k] == p[k];
  }

  /** The sitemap of a build lists exactly the pages, in the walk's order,
      each under its URL path (prefixed by the base when asked) and dated
      with the day of the build. */
  lemma BuildSitemapLists(files: seq<string>, withBase: bool, base: string, iso: string)
    requires '<' !in base && '<' !in iso
    requires forall k :: 0 <= k < |files| ==> '<' !in files[k]
    ensures var pages := Pages(files);
      var r := ReadSitemap(BuildSitemap(files, withBase, base, iso));
      r.Some? && |r.value| == |pages|
      && forall k :: 0 <= k < |pages| ==> r.value[k] == Url(Href(withBase, base, pages[k]), Lastmod(iso))
  {
    var pages := Pages(files);
    var hrefs := Hrefs(pages, withBase, base);
    forall k | 0 <= k < |hrefs|
      ensures '<' !in hrefs[k]
    {
      assert pages[k] in files;
      HrefPlain(withBase, base, pages[k]);
    }
    var lm := Lastmod(iso);
    assert forall k :: 0 <= k < |lm| ==> lm[k] == iso[k];
    SitemapRoundTrip(hrefs, lm);
  }
}
