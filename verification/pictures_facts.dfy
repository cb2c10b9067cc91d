/** What `transformImages` does, stated over the model in pictures.dfy: the
    scanner reports exactly the leftmost, laziest matches of the pattern,
    text without a match comes back unchanged, and every `<picture>` has
    the same shape, with the base path touching nothing but the URLs. */
module PictureFacts {
  import opened Text
  import opened Escaping
  import opened Pictures

  /** What the tail of the pattern covers: `src` after white space, the
      quoted value with no quote inside, and everything up to the first
      `>` after the closing quote. */
  lemma TailAtSound(s: string, c: nat)
    requires c <= |s|
    ensures TailAt(s, c).Some? ==>
              var t := TailAt(s, c).value;
              && IsSpace(s[c])
              && IsQuote(s[t.srcStart - 1]) && IsQuote(s[t.srcEnd])
              && (forall k :: t.srcStart <= k < t.srcEnd ==> !IsQuote(s[k]))
              && s[t.end - 1] == '>'
              && (forall k :: t.srcEnd < k < t.end - 1 ==> s[k] != '>')
  {
    var w := SpaceRun(s, c);
    if w >= 1 && HasAtIgnoreCase(s, c + w, "src") && EqualsQuote(s, c + w + 3).Some? {
      var i := EqualsQuote(s, c + w + 3).value;
      QuoteFreeRunIs(s, i);
      var n := QuoteFreeRun(s, i);
      if n >= 1 && i + n < |s| {
        GtFreeRunIs(s, i + n + 1);
      }
    }
  }

  /** The value an alt attribute captures holds no quote. */
  lemma AltAtSound(s: string, k: nat)
    requires k <= |s|
    ensures AltAt(s, k).Some? ==> forall j :: 0 <= j < |AltAt(s, k).value| ==> !IsQuote(AltAt(s, k).value[j])
  {
    if AltAt(s, k).Some? {
      QuoteFreeRunIs(s, EqualsQuote(s, k + 3).value);
    }
  }

  /** A lazy `[^>]*?` stops at the first place the rest of the pattern
      matches, and covers no `>`. */
  lemma {:induction false} LazyStopSound(s: string, b: nat, rest: nat -> bool)
    requires b <= |s|
    ensures LazyStop(s, b, rest).Some? ==>
              && rest(LazyStop(s, b, rest).value)
              && NoGt(s, b, LazyStop(s, b, rest).value)
              && forall c :: b <= c < LazyStop(s, b, rest).value ==> !rest(c)
    decreases |s| - b
  {
    if !rest(b) && b < |s| && s[b] != '>' {
      LazyStopSound(s, b + 1, rest);
    }
  }

  /** A lazy `[^>]*?` finds a stopping place whenever one exists, and stops
      no later than it. */
  lemma {:induction false} LazyStopComplete(s: string, b: nat, c: nat, rest: nat -> bool)
    requires b <= c <= |s| && NoGt(s, b, c) && rest(c)
    ensures LazyStop(s, b, rest).Some? && LazyStop(s, b, rest).value <= c
    decreases c - b
  {
    if !rest(b) {
      assert s[b] != '>';
      LazyStopComplete(s, b + 1, c, rest);
    }
  }

  /** A reported match has the pattern's shape, and its fields are those of
      the tail found where the lazy groups stop. */
  lemma ImgAtSound(s: string, p: nat)
    requires p <= |s|
    ensures ImgAt(s, p).Some? ==>
              var m := ImgAt(s, p).value;
              && IsImgShape(s, p, m.head, m.tail)
              && TailAt(s, m.tail) == Some(Tail(m.srcStart, m.srcEnd, m.end))
  {
    if ImgAt(s, p).Some? {
      var m := ImgAt(s, p).value;
      LazyStopSound(s, p + 4, HeadMatches(s));
      LazyStopSound(s, HeadAt(s, m.head).value, TailMatches(s));
    }
  }

  /** Once the first lazy group has stopped, the match is there: the
      attribute, the second lazy group and the tail all succeed. */
  lemma ImgAtFromPre(s: string, p: nat, q: nat)
    requires q == p + 4 && q <= |s| && HasAtIgnoreCase(s, p, "<img") && PreSearch(s, q).Some?
    ensures var a := PreSearch(s, q).value;
      && HeadAt(s, a).Some? && MidSearch(s, HeadAt(s, a).value).Some?
      && ImgAt(s, p).Some? && ImgAt(s, p).value.head == a
      && ImgAt(s, p).value.tail == MidSearch(s, HeadAt(s, a).value).value
  {
    PreSearchFound(s, q);
  }

  /** Where the first lazy group stops, the attribute follows, and the
      second lazy group stops where the tail matches. */
  lemma PreSearchFound(s: string, q: nat)
    requires q <= |s| && PreSearch(s, q).Some?
    ensures var a := PreSearch(s, q).value;
      && HeadAt(s, a).Some? && MidSearch(s, HeadAt(s, a).value).Some?
      && TailAt(s, MidSearch(s, HeadAt(s, a).value).value).Some?
  {
    var a := PreSearch(s, q).value;
    LazyStopSound(s, q, HeadMatches(s));
    assert HeadMatches(s)(a);
    var b := HeadAt(s, a).value;
    LazyStopSound(s, b, TailMatches(s));
    assert TailMatches(s)(MidSearch(s, b).value);
  }

  /** The pattern matches at `p` whenever the text there has its shape,
      and the lazy groups stop no later than in any such shape: the match
      reported is the laziest one. */
  lemma ImgAtComplete(s: string, p: nat, a: nat, c: nat)
    requires IsImgShape(s, p, a, c)
    ensures ImgAt(s, p).Some?
    ensures ImgAt(s, p).value.head <= a
    ensures ImgAt(s, p).value.head == a ==> ImgAt(s, p).value.tail <= c
  {
    var q := p + 4;
    SearchesStopBy(s, p, q, a, c);
    ImgAtFromPre(s, p, q);
  }

  /** The two lazy searches of a match at `p` (the first starting at `q`,
      just past `<img`) stop no later than in any shape of the pattern
      there. */
  lemma SearchesStopBy(s: string, p: nat, q: nat, a: nat, c: nat)
    requires q == p + 4 && IsImgShape(s, p, a, c)
    ensures PreSearch(s, q).Some? && PreSearch(s, q).value <= a
    ensures MidSearch(s, HeadAt(s, a).value).Some? && MidSearch(s, HeadAt(s, a).value).value <= c
  {
    var b := HeadAt(s, a).value;
    MidSearchStopsBy(s, b, c);
    HeadMatchesAt(s, a);
    PreSearchStopsBy(s, q, a);
  }

  lemma MidSearchStopsBy(s: string, b: nat, c: nat)
    requires b <= c <= |s| && NoGt(s, b, c) && TailAt(s, c).Some?
    ensures MidSearch(s, b).Some? && MidSearch(s, b).value <= c
  {
    assert TailMatches(s)(c);
    LazyStopComplete(s, b, c, TailMatches(s));
  }

  lemma HeadMatchesAt(s: string, a: nat)
    requires a <= |s| && HeadAt(s, a).Some? && MidSearch(s, HeadAt(s, a).value).Some?
    ensures HeadMatches(s)(a)
  {
  }

  lemma PreSearchStopsBy(s: string, a0: nat, a: nat)
    requires a0 <= a <= |s| && NoGt(s, a0, a) && HeadMatches(s)(a)
    ensures PreSearch(s, a0).Some? && PreSearch(s, a0).value <= a
  {
    LazyStopComplete(s, a0, a, HeadMatches(s));
  }

  /** The search reports the leftmost match. */
  lemma FindImgFirst(s: string, i: nat)
    requires i <= |s| && FindImg(s, i).Some?
    ensures forall p :: i <= p < FindImg(s, i).value.start ==> ImgAt(s, p).None?
  {
    FirstFromLeast(i, |s|, ImgStarts(s));
    var v := FindImg(s, i).value.start;
    forall p | i <= p < v ensures ImgAt(s, p).None? {
      assert !ImgStarts(s)(p);
    }
  }

  /** What the search reports has the pattern's shape. */
  lemma FindImgShape(s: string, i: nat)
    requires i <= |s|
    ensures FindImg(s, i).Some? ==>
              var m := FindImg(s, i).value;
              IsImgShape(s, m.start, m.head, m.tail)
  {
    if FindImg(s, i).Some? {
      ImgAtSound(s, FindImg(s, i).value.start);
    }
  }

  /** A page on which the pattern matches nowhere comes back unchanged,
      whatever the base. */
  lemma NoShapeUnchanged(html: string, base: string)
    requires forall p, a, c :: !IsImgShape(html, p, a, c)
    ensures TransformImages(html, base) == html
  {
    FindImgShape(html, 0);
  }

  /** Rendering distributes over concatenation of pieces. */
  lemma {:induction false} RenderAppend(ps: seq<Piece>, qs: seq<Piece>, base: string, img: Img)
    ensures Render(ps + qs, base, img) == Render(ps, base, img) + Render(qs, base, img)
  {
    if ps == [] {
      assert ps + qs == qs;
    } else {
      assert (ps + qs)[0] == ps[0] && (ps + qs)[1..] == ps[1..] + qs;
      RenderAppend(ps[1..], qs, base, img);
    }
  }

  /** The width/format pairs of the URLs among the pieces, in order. */
  function UrlsOf(ps: seq<Piece>): (r: seq<(nat, string)>)
    ensures |r| <= |ps|
  {
    if ps == [] then []
    else (if ps[0].Url? then [(ps[0].width, ps[0].format)] else []) + UrlsOf(ps[1..])
  }

  lemma {:induction false} UrlsAppend(ps: seq<Piece>, qs: seq<Piece>)
    ensures UrlsOf(ps + qs) == UrlsOf(ps) + UrlsOf(qs)
  {
    if ps == [] {
      assert ps + qs == qs;
    } else {
      assert (ps + qs)[0] == ps[0] && (ps + qs)[1..] == ps[1..] + qs;
      UrlsAppend(ps[1..], qs);
    }
  }

  /** Each width of the list, paired with one format. */
  function WithFormat(ws: seq<nat>, format: string): (r: seq<(nat, string)>)
    ensures |r| == |ws| && forall k :: 0 <= k < |ws| ==> r[k] == (ws[k], format)
  {
    if ws == [] then [] else [(ws[0], format)] + WithFormat(ws[1..], format)
  }

  /** A source set names one URL per width, in the order of the widths. */
  lemma {:induction false} SrcsetUrls(ws: seq<nat>, format: string)
    ensures UrlsOf(SrcsetPieces(ws, format)) == WithFormat(ws, format)
  {
    if ws != [] {
      var head := [Url(ws[0], format), Lit(" " + NatToString(ws[0]) + "w")];
      var tail := if |ws| == 1 then [] else [Lit(", ")] + SrcsetPieces(ws[1..], format);
      UrlsAppend(head, tail);
      assert UrlsOf(head) == [(ws[0], format)] by {
        assert head[1..][1..] == [];
      }
      if |ws| > 1 {
        UrlsAppend([Lit(", ")], SrcsetPieces(ws[1..], format));
        assert UrlsOf([Lit(", ")]) == [] by {
          assert [Lit(", ")][1..] == [];
        }
        SrcsetUrls(ws[1..], format);
      } else {
        assert ws[1..] == [];
      }
    }
  }

  lemma UrlsOfLit(t: string)
    ensures UrlsOf([Lit(t)]) == []
  {
    assert [Lit(t)][1..] == [];
  }

  /** Every `<picture>` links, in this order, the four AVIF widths, the four
      WebP widths, and the fallback at width 1200 in the fallback format. */
  lemma TemplateUrls(img: Img)
    ensures UrlsOf(Template(img))
         == WithFormat(Widths, "avif") + WithFormat(Widths, "webp") + [(FallbackWidth, img.fallbackExt)]
  {
    var b := SrcsetPieces(Widths, "avif");
    var d := SrcsetPieces(Widths, "webp");
    var e := [Lit(FallbackOpen), Url(FallbackWidth, img.fallbackExt), Lit(FallbackAttributes(img))];
    FallbackUrls(img);
    SrcsetUrls(Widths, "avif");
    SrcsetUrls(Widths, "webp");
    UrlsBetweenLits(PictureOpen, b, WebpOpen, d, e);
  }

  /** The only URL after the WebP source set is the fallback. */
  lemma FallbackUrls(img: Img)
    ensures UrlsOf([Lit(FallbackOpen), Url(FallbackWidth, img.fallbackExt), Lit(FallbackAttributes(img))])
         == [(FallbackWidth, img.fallbackExt)]
  {
    var e := [Lit(FallbackOpen), Url(FallbackWidth, img.fallbackExt), Lit(FallbackAttributes(img))];
    UrlsOfLit(FallbackAttributes(img));
    assert e[1..][1..] == [Lit(FallbackAttributes(img))];
  }

  /** Fixed text between groups of pieces contributes no URL. */
  lemma UrlsBetweenLits(t1: string, b: seq<Piece>, t2: string, d: seq<Piece>, e: seq<Piece>)
    ensures UrlsOf([Lit(t1)] + b + [Lit(t2)] + d + e) == UrlsOf(b) + UrlsOf(d) + UrlsOf(e)
  {
    UrlsAppend([Lit(t1)] + b + [Lit(t2)] + d, e);
    UrlsAppend([Lit(t1)] + b + [Lit(t2)], d);
    UrlsAppend([Lit(t1)] + b, [Lit(t2)]);
    UrlsAppend([Lit(t1)], b);
    UrlsOfLit(t1);
    UrlsOfLit(t2);
  }

  /** One entry of a source set: a URL and its width descriptor. */
  function SrcsetEntries(ws: seq<nat>, format: string, base: string, img: Img): (r: seq<string>)
    ensures |r| == |ws|
  {
    if ws == [] then []
    else [MakePath(base, img, ws[0], format) + " " + NatToString(ws[0]) + "w"]
         + SrcsetEntries(ws[1..], format, base, img)
  }

  /** The rendered source set is `widths.map(w => makePath(w, f) + " " + w
      + "w").join(", ")`. */
  lemma {:induction false} SrcsetIsJoin(ws: seq<nat>, format: string, base: string, img: Img)
    ensures Render(SrcsetPieces(ws, format), base, img)
         == Join(SrcsetEntries(ws, format, base, img), ", ")
  {
    if ws != [] {
      var head := [Url(ws[0], format), Lit(" " + NatToString(ws[0]) + "w")];
      var tail := if |ws| == 1 then [] else [Lit(", ")] + SrcsetPieces(ws[1..], format);
      RenderAppend(head, tail, base, img);
      var entry := MakePath(base, img, ws[0], format) + " " + NatToString(ws[0]) + "w";
      assert Render(head, base, img) == entry by {
        assert head[1..][1..] == [];
      }
      if |ws| > 1 {
        RenderAppend([Lit(", ")], SrcsetPieces(ws[1..], format), base, img);
        assert Render([Lit(", ")], base, img) == ", " by {
          assert [Lit(", ")][1..] == [];
        }
        SrcsetIsJoin(ws[1..], format, base, img);
      } else {
        assert ws[1..] == [];
      }
    }
  }

  /** Every piece as it is, with the text `base` put in front of each URL. */
  function Prefixed(ps: seq<Piece>, base: string): (r: seq<Piece>)
    ensures |r| >= |ps|
  {
    if ps == [] then []
    else (if ps[0].Url? then [Lit(base), ps[0]] else [ps[0]]) + Prefixed(ps[1..], base)
  }

  lemma MakePathBase(base: string, img: Img, w: nat, format: string)
    requires base != ""
    ensures MakePath(base, img, w, format) == base + MakePath("", img, w, format)
  {
  }

  /** With a non-empty base, the markup is the markup for the empty base
      with the base written in front of every URL, and nothing else
      differs. */
  lemma {:induction false} BaseOnlyPrefixesUrls(ps: seq<Piece>, base: string, img: Img)
    requires base != ""
    ensures Render(ps, base, img) == Render(Prefixed(ps, base), "", img)
  {
    if ps != [] {
      var head := if ps[0].Url? then [Lit(base), ps[0]] else [ps[0]];
      RenderAppend(head, Prefixed(ps[1..], base), "", img);
      BaseOnlyPrefixesUrls(ps[1..], base, img);
      match ps[0]
      case Lit(t) =>
        assert Render(head, "", img) == t by {
          assert head[1..] == [];
        }
      case Url(w, f) =>
        MakePathBase(base, img, w, f);
        assert Render(head, "", img) == base + MakePath("", img, w, f) by {
          assert head[1..][1..] == [];
        }
    }
  }

  /** Trimming a line break off text that starts and ends with something
      other than white space leaves exactly that text. */
  lemma TrimLeadingBreak(x: string)
    requires x != [] && !IsSpace(x[0]) && !IsSpace(x[|x| - 1])
    ensures Trim("\n" + x) == x
  {
    assert ("\n" + x)[1..] == x;
    assert TrimStart("\n" + x) == x;
  }

  lemma RenderLit(t: string, base: string, img: Img)
    ensures Render([Lit(t)], base, img) == t
  {
    assert [Lit(t)][1..] == [];
  }

  /** The `.trim()` of the template literal only removes its leading line
      break: the replacement is the rendered template itself. */
  lemma PictureIsTemplate(img: Img, base: string)
    ensures Picture(img, base) == Render(Template(img), base, img)
  {
    PictureOpenFirst();
    TrimFramed(Template(img), base, img, PictureOpen, FallbackAttributes(img));
  }

  lemma PictureOpenFirst()
    ensures PictureOpen != [] && PictureOpen[0] == '<'
  {
    assert PictureTag[0] == '<';
  }

  /** Pieces that open and close with fixed text that does not start or
      end with white space render to text that trimming leaves alone. */
  lemma TrimFramed(ps: seq<Piece>, base: string, img: Img, first: string, last: string)
    requires |ps| >= 2 && ps[0] == Lit(first) && ps[|ps| - 1] == Lit(last)
    requires first != [] && !IsSpace(first[0]) && last != [] && !IsSpace(last[|last| - 1])
    ensures Trim("\n" + Render(ps, base, img)) == Render(ps, base, img)
  {
    var n := |ps|;
    var mid := ps[1..n - 1];
    assert ps == [ps[0]] + mid + [ps[n - 1]];
    RenderAppend([ps[0]] + mid, [ps[n - 1]], base, img);
    RenderAppend([ps[0]], mid, base, img);
    RenderLit(first, base, img);
    RenderLit(last, base, img);
    var x := Render(ps, base, img);
    assert x == first + Render(mid, base, img) + last;
    assert x[0] == first[0];
    assert x[|x| - 1] == last[|last| - 1];
    TrimLeadingBreak(x);
  }

  /** Two callbacks that agree on every tag give the same page. */
  lemma {:induction false} TransformWithSame(s: string, i: nat, f: Img -> string, g: Img -> string)
    requires i <= |s|
    requires forall img :: f(img) == g(img)
    ensures TransformWith(s, i, f) == TransformWith(s, i, g)
    decreases |s| - i
  {
    match FindImg(s, i)
    case None =>
    case Some(m) =>
      TransformWithSame(s, m.end, f, g);
  }

  /** The `<picture>` of a tag rendered from a template's pieces. */
  function RenderedFrom(ps: Img -> seq<Piece>, base: string): Img -> string {
    img => Render(ps(img), base, img)
  }

  /** The template of a tag with every URL preceded by `base`. */
  function PrefixedTemplate(base: string): Img -> seq<Piece> {
    img => Prefixed(Template(img), base)
  }

  /** The template of a tag. */
  function TemplateOf(): Img -> seq<Piece> {
    img => Template(img)
  }

  /** On a whole page, the base only prefixes URLs: without a base each
      tag becomes its rendered template, and with a base `B` the page has
      the same tags at the same places, each rendered from the template
      in which `B` precedes every URL. */
  lemma BaseOnlyPrefixesPage(html: string, base: string)
    requires base != ""
    ensures TransformImages(html, "") == TransformWith(html, 0, RenderedFrom(TemplateOf(), ""))
    ensures TransformImages(html, base)
         == TransformWith(html, 0, RenderedFrom(PrefixedTemplate(base), ""))
  {
    forall img ensures PictureFor("")(img) == RenderedFrom(TemplateOf(), "")(img) {
      PictureIsTemplate(img, "");
    }
    TransformWithSame(html, 0, PictureFor(""), RenderedFrom(TemplateOf(), ""));
    forall img ensures PictureFor(base)(img) == RenderedFrom(PrefixedTemplate(base), "")(img) {
      PictureIsTemplate(img, base);
      BaseOnlyPrefixesUrls(Template(img), base, img);
    }
    TransformWithSame(html, 0, PictureFor(base), RenderedFrom(PrefixedTemplate(base), ""));
  }

  /** A quote-free run up to a quote is exactly that long. */
  lemma QuoteFreeRunExact(s: string, i: nat, n: nat)
    requires i + n < |s| && IsQuote(s[i + n])
    requires forall k :: i <= k < i + n ==> !IsQuote(s[k])
    ensures QuoteFreeRun(s, i) == n
  {
    QuoteFreeRunIs(s, i);
  }

  /** `\balt\s*=\s*["']([^"']*)["']` matches `alt="a"` (in any case, with
      either quote) after a non-word character, capturing `a`. */
  lemma AltAtComplete(s: string, k: nat, a: string)
    requires k + 6 + |a| <= |s|
    requires k == 0 || !IsWordChar(s[k - 1])
    requires HasAtIgnoreCase(s, k, "alt") && s[k + 3] == '=' && IsQuote(s[k + 4])
    requires s[k + 5..k + 5 + |a|] == a && IsQuote(s[k + 5 + |a|])
    requires forall j :: 0 <= j < |a| ==> !IsQuote(a[j])
    ensures AltAt(s, k) == Some(a)
  {
    assert SpaceRun(s, k + 3) == 0;
    assert SpaceRun(s, k + 4) == 0;
    assert EqualsQuote(s, k + 3) == Some(k + 5);
    assert forall j :: k + 5 <= j < k + 5 + |a| ==> s[j] == a[j - (k + 5)];
    QuoteFreeRunExact(s, k + 5, |a|);
  }

  /** The `alt` of a tag is the text of the first match of the pattern. */
  lemma DescribeAlt(full: string, src: string, k: nat)
    requires k <= |full| && AltAt(full, k).Some?
    requires forall j :: 0 <= j < k ==> AltAt(full, j).None?
    ensures Describe(full, src).alt == AltAt(full, k).value
  {
    var P := AltStarts(full);
    assert P(k);
    FirstFromNone(0, |full|, P);
    FirstFromLeast(0, |full|, P);
    var f := FirstFrom(0, |full|, P).value;
    assert P(f);
    assert f == k;
  }

  /** A tag whose first `alt` attribute is `alt="a"` gets `a` as its alt
      text. */
  lemma AltInTag(pre: string, a: string, post: string, src: string)
    requires forall j :: 0 <= j < |a| ==> !IsQuote(a[j])
    requires forall j :: 0 <= j < |pre| ==> AltAt(pre + " alt=\"" + a + "\"" + post, j).None?
    ensures Describe(pre + " alt=\"" + a + "\"" + post, src).alt == a
  {
    var full := pre + " alt=\"" + a + "\"" + post;
    var k := |pre| + 1;
    assert full[|pre|] == ' ' && full[k] == 'a' && full[k + 1] == 'l' && full[k + 2] == 't';
    assert full[k + 3] == '=' && full[k + 4] == '"';
    assert full[k + 5..k + 5 + |a|] == a && full[k + 5 + |a|] == '"';
    AltAtComplete(full, k, a);
    assert LowerAscii(full[|pre| + 0]) != "alt"[0];
    assert AltAt(full, |pre|).None?;
    DescribeAlt(full, src, k);
  }
}
