/** The picture transformer of scripts/build.mjs (`transformImages` with its
    `makePath` helper): every `<img … data-picture="auto" … src="…">` tag of
    a page becomes a `<picture>` element with an AVIF and a WebP source set
    and a fallback image, all pointing at the derivatives under
    `/assets/img/`. */
module Pictures {
  import opened Text
  import opened Paths
  import opened Escaping

  /** The widths listed in every source set, in the order written. */
  const Widths: seq<nat> := [480, 768, 1200, 1920]

  /** The width of the fallback image. */
  const FallbackWidth: nat := 1200

  /** The `sizes` attribute, verbatim (its entries use `w` descriptors
      where HTML expects lengths). */
  const Sizes: string :=
    "(max-width: 480px) 480w, (max-width: 768px) 768w, (max-width: 1200px) 1200w, 1920w"

  predicate IsQuote(c: char) {
    c == '"' || c == '\''
  }

  /** No `>` in `s[i..j]`: what a `[^>]*` run may cover. */
  predicate NoGt(s: string, i: nat, j: nat)
    requires i <= j <= |s|
  {
    forall k :: i <= k < j ==> s[k] != '>'
  }

  /** Length of the longest run from `i` holding no quote: a greedy
      `[^"']*`. */
  function QuoteFreeRun(s: string, i: nat): (n: nat)
    requires i <= |s|
    ensures i + n <= |s|
    decreases |s| - i
  {
    if i < |s| && !IsQuote(s[i]) then 1 + QuoteFreeRun(s, i + 1) else 0
  }

  /** The run holds no quote and ends at a quote or at the end. */
  lemma {:induction false} QuoteFreeRunIs(s: string, i: nat)
    requires i <= |s|
    ensures forall k :: i <= k < i + QuoteFreeRun(s, i) ==> !IsQuote(s[k])
    ensures i + QuoteFreeRun(s, i) == |s| || IsQuote(s[i + QuoteFreeRun(s, i)])
    decreases |s| - i
  {
    if i < |s| && !IsQuote(s[i]) {
      QuoteFreeRunIs(s, i + 1);
    }
  }

  /** Length of the longest run from `i` holding no `>`: a greedy `[^>]*`. */
  function GtFreeRun(s: string, i: nat): (n: nat)
    requires i <= |s|
    ensures i + n <= |s|
    decreases |s| - i
  {
    if i < |s| && s[i] != '>' then 1 + GtFreeRun(s, i + 1) else 0
  }

  /** The run holds no `>` and ends at a `>` or at the end. */
  lemma {:induction false} GtFreeRunIs(s: string, i: nat)
    requires i <= |s|
    ensures NoGt(s, i, i + GtFreeRun(s, i))
    ensures i + GtFreeRun(s, i) == |s| || s[i + GtFreeRun(s, i)] == '>'
    decreases |s| - i
  {
    if i < |s| && s[i] != '>' {
      GtFreeRunIs(s, i + 1);
    }
  }

  /** `\s*=\s*["']` at `i`: the index just past the quote. Both white-space
      runs are greedy and cannot give anything back, since neither `=` nor
      a quote is white space. */
  function EqualsQuote(s: string, i: nat): (r: Option<nat>)
    requires i <= |s|
    ensures r.Some? ==> i + 2 <= r.value <= |s| && IsQuote(s[r.value - 1])
  {
    var j := i + SpaceRun(s, i);
    if j < |s| && s[j] == '=' then
      var k := j + 1 + SpaceRun(s, j + 1);
      if k < |s| && IsQuote(s[k]) then Some(k + 1) else None
    else None
  }

  /** `\sdata-picture\s*=\s*["']auto["']` at `a`, letters in either case:
      the index just past the closing quote. */
  function HeadAt(s: string, a: nat): (r: Option<nat>)
    requires a <= |s|
    ensures r.Some? ==> a + 20 <= r.value <= |s|
  {
    if a < |s| && IsSpace(s[a]) && HasAtIgnoreCase(s, a + 1, "data-picture") then
      match EqualsQuote(s, a + 13)
      case None => None
      case Some(i) =>
        if HasAtIgnoreCase(s, i, "auto") && i + 4 < |s| && IsQuote(s[i + 4]) then Some(i + 5)
        else None
    else None
  }

  /** The part of a match after the lazy `([^>]*?)` before `src`: the
      captured source is `s[srcStart..srcEnd]`, the match ends at `end`. */
  datatype Tail = Tail(srcStart: nat, srcEnd: nat, end: nat)

  /** `\s+src\s*=\s*["']([^"']+)["']([^>]*)>` at `c`, `src` in either case.
      Every run in it is greedy and is followed by a character the run
      cannot hold, so there is at most one way to match. */
  function TailAt(s: string, c: nat): (r: Option<Tail>)
    requires c <= |s|
    ensures r.Some? ==> c + 6 <= r.value.srcStart < r.value.srcEnd < r.value.end <= |s|
  {
    var w := SpaceRun(s, c);
    if w >= 1 && HasAtIgnoreCase(s, c + w, "src") then
      match EqualsQuote(s, c + w + 3)
      case None => None
      case Some(i) =>
        var n := QuoteFreeRun(s, i);
        if n >= 1 && i + n < |s| then
          var g := i + n + 1 + GtFreeRun(s, i + n + 1);
          if g < |s| then Some(Tail(i, i + n, g + 1)) else None
        else None
    else None
  }

  /** A lazy `[^>]*?` at `b` followed by the rest of a pattern, which
      matches at `c` when `rest(c)` holds: the first `c` from `b` on, not
      past a `>`, at which the rest matches. */
  function LazyStop(s: string, b: nat, rest: nat -> bool): (r: Option<nat>)
    requires b <= |s|
    ensures r.Some? ==> b <= r.value <= |s|
    decreases |s| - b
  {
    if rest(b) then Some(b)
    else if b < |s| && s[b] != '>' then LazyStop(s, b + 1, rest)
    else None
  }

  /** Where the tail of the pattern can follow the second lazy group. */
  function TailMatches(s: string): nat -> bool {
    (c: nat) => c <= |s| && TailAt(s, c).Some?
  }

  /** The lazy `([^>]*?)` between the `data-picture` attribute and `src`. */
  function MidSearch(s: string, b: nat): (r: Option<nat>)
    requires b <= |s|
    ensures r.Some? ==> b <= r.value <= |s|
  {
    LazyStop(s, b, TailMatches(s))
  }

  /** Where the `data-picture` attribute and then the rest of the pattern
      can follow the first lazy group. */
  function HeadMatches(s: string): nat -> bool {
    (a: nat) => a <= |s| && match HeadAt(s, a) case Some(b) => MidSearch(s, b).Some? case None => false
  }

  /** The lazy `([^>]*?)` after `<img`. */
  function PreSearch(s: string, a: nat): (r: Option<nat>)
    requires a <= |s|
    ensures r.Some? ==> a <= r.value <= |s|
  {
    LazyStop(s, a, HeadMatches(s))
  }

  /** One match of the picture pattern: `s[start..end]` is the whole tag,
      `head` and `tail` are where the two lazy groups stop, and
      `s[srcStart..srcEnd]` is the captured `src` value. */
  datatype ImgMatch = ImgMatch(start: nat, head: nat, tail: nat, srcStart: nat, srcEnd: nat, end: nat)

  /** The match the regular expression engine reports at `p`, if any. */
  function ImgAt(s: string, p: nat): (r: Option<ImgMatch>)
    requires p <= |s|
    ensures r.Some? ==>
              && r.value.start == p
              && r.value.tail < r.value.srcStart < r.value.srcEnd < r.value.end <= |s|
  {
    if !HasAtIgnoreCase(s, p, "<img") then None
    else
      match PreSearch(s, p + 4)
      case None => None
      case Some(a) =>
        match HeadAt(s, a)
        case None => None
        case Some(b) =>
          match MidSearch(s, b)
          case None => None
          case Some(c) =>
            match TailAt(s, c)
            case None => None
            case Some(t) => Some(ImgMatch(p, a, c, t.srcStart, t.srcEnd, t.end))
  }

  /** Where the pattern matches at `p` with the lazy groups stopping at `a`
      and `c`: `<img` in either case, a `>`-free stretch up to `a`, the
      `data-picture` attribute, a `>`-free stretch up to `c`, and the tail. */
  predicate IsImgShape(s: string, p: nat, a: nat, c: nat) {
    && p + 4 <= a <= |s| && HasAtIgnoreCase(s, p, "<img") && NoGt(s, p + 4, a)
    && HeadAt(s, a).Some? && HeadAt(s, a).value <= c <= |s|
    && NoGt(s, HeadAt(s, a).value, c) && TailAt(s, c).Some?
  }

  /** The first match at or after `i`: the global regular expression's
      search, which `String.prototype.replace` repeats from each match's end. */
  function FindImg(s: string, i: nat): (r: Option<ImgMatch>)
    requires i <= |s|
    ensures r.Some? ==> i <= r.value.start <= |s| && ImgAt(s, r.value.start) == r
  {
    var p := FirstFrom(i, |s|, ImgStarts(s));
    if p.Some? then ImgAt(s, p.value) else None
  }

  /** Where a match of the pattern starts. */
  function ImgStarts(s: string): nat -> bool {
    (p: nat) => p <= |s| && ImgAt(s, p).Some?
  }

  /** What `transformImages` keeps of one tag. */
  datatype Img = Img(dir: string, name: string, fallbackExt: string, alt: string,
                     addLoading: bool, addDecoding: bool)

  /** `s` with at most one leading `c` removed (a `c?` anchored at the start). */
  function DropOne(s: string, c: char): (r: string)
    ensures |r| <= |s|
    ensures r == s || (s != [] && s[0] == c && r == s[1..])
  {
    if s != [] && s[0] == c then s[1..] else s
  }

  /** `s` with every leading `c` removed (a `c*` anchored at the start). */
  function DropAll(s: string, c: char): (r: string)
    ensures |r| <= |s| && r == s[|s| - |r|..] && (r != [] ==> r[0] != c)
    ensures forall k :: 0 <= k < |s| - |r| ==> s[k] == c
  {
    if s != [] && s[0] == c then DropAll(s[1..], c) else s
  }

  /** The three `replace` calls on `parsed.dir`: a leading `.` and then
      any leading slashes go, then a leading `src/img/` (each slash
      optional), then a leading `img/` (slash optional). The patterns are
      case-sensitive. */
  function CleanDir(dir: string): (r: string)
    ensures |r| <= |dir|
  {
    var d1 := DropAll(DropOne(dir, '.'), '/');
    var d2 := if StartsWith(d1, "src") && StartsWith(DropOne(d1[3..], '/'), "img")
              then DropOne(DropOne(d1[3..], '/')[3..], '/')
              else d1;
    if StartsWith(d2, "img") then DropOne(d2[3..], '/') else d2
  }

  /** ASCII lower-casing of a whole string. */
  function LowerAll(s: string): (r: string)
    ensures |r| == |s| && forall k :: 0 <= k < |s| ==> r[k] == LowerAscii(s[k])
  {
    if s == [] then "" else [LowerAscii(s[0])] + LowerAll(s[1..])
  }

  /** `(parsed.ext || ".jpg").replace(/^\./, "")`. */
  function SourceExt(ext: string): (r: string)
    ensures ext == "" ==> r == "jpg"
    ensures ext != [] && ext[0] == '.' ==> r == ext[1..]
  {
    DropOne(if ext == "" then ".jpg" else ext, '.')
  }

  /** `/^(jpe?g|png)$/i.test(ext) ? ext : "jpg"`. */
  function FallbackFormat(ext: string): (r: string)
    ensures LowerAll(r) in {"jpg", "jpeg", "png"}
    ensures LowerAll(ext) in {"jpg", "jpeg", "png"} ==> r == ext
    ensures LowerAll(ext) !in {"jpg", "jpeg", "png"} ==> r == "jpg"
  {
    if LowerAll(ext) in {"jpg", "jpeg", "png"} then ext
    else assert LowerAll("jpg") == "jpg"; "jpg"
  }

  /** `\balt\s*=\s*["']([^"']*)["']` at `k`, `alt` in either case: the
      captured value. */
  function AltAt(s: string, k: nat): (r: Option<string>)
    requires k <= |s|
  {
    if (k == 0 || !IsWordChar(s[k - 1])) && HasAtIgnoreCase(s, k, "alt") then
      match EqualsQuote(s, k + 3)
      case None => None
      case Some(i) =>
        var n := QuoteFreeRun(s, i);
        if i + n < |s| then Some(s[i..i + n]) else None
    else None
  }

  /** `full.match(…alt…)`: where the first alt attribute of the tag
      starts, searching from `k`. */
  function FindAlt(s: string, k: nat): (r: Option<nat>)
    ensures r.Some? ==> k <= r.value <= |s| && AltAt(s, r.value).Some?
  {
    FirstFrom(k, |s|, AltStarts(s))
  }

  /** Where an alt attribute matching the pattern starts. */
  function AltStarts(s: string): nat -> bool {
    (k: nat) => k <= |s| && AltAt(s, k).Some?
  }

  /** `s` holds `p` somewhere (`/p/.test(s)` for a pattern without
      special characters). */
  predicate Occurs(s: string, p: string) {
    exists k :: 0 <= k <= |s| && HasAt(s, k, p)
  }

  /** The fields the callback of `transformImages` computes from the
      matched tag and its `src`. */
  function Describe(full: string, src: string): (r: Img)
    ensures !r.addLoading <==> Occurs(full, "loading=")
    ensures !r.addDecoding <==> Occurs(full, "decoding=")
    ensures Parse(src).ext == "" ==> r.fallbackExt == "jpg"
    ensures r.name == Parse(src).name && r.dir == CleanDir(Parse(src).dir)
    ensures (forall k :: 0 <= k <= |full| ==> AltAt(full, k).None?) ==> r.alt == ""
  {
    var parsed := Parse(src);
    var alt := FindAlt(full, 0);
    FirstFromNone(0, |full|, AltStarts(full));
    Img(CleanDir(parsed.dir), parsed.name, FallbackFormat(SourceExt(parsed.ext)),
        if alt.Some? then AltAt(full, alt.value).value else "",
        !Occurs(full, "loading="), !Occurs(full, "decoding="))
  }

  /** `makePath(w, ext)`: the URL of one derivative. */
  function MakePath(base: string, img: Img, w: nat, format: string): string {
    var basePrefix := if base != "" then base + "/assets/img/" else "/assets/img/";
    var sub := if img.dir != "" then img.dir + "/" else "";
    basePrefix + sub + img.name + "-" + NatToString(w) + "." + format
  }

  /** A piece of the generated markup: fixed text, or the URL of the
      derivative of width `width` in format `format`. */
  datatype Piece = Lit(text: string) | Url(width: nat, format: string)

  /** The pieces of `srcset="…"` for the widths `ws`: each URL followed by
      its width descriptor, separated by `", "`. */
  function SrcsetPieces(ws: seq<nat>, format: string): (r: seq<Piece>)
    ensures |ws| > 0 ==> |r| == 3 * |ws| - 1
  {
    if |ws| == 0 then []
    else
      [Url(ws[0], format), Lit(" " + NatToString(ws[0]) + "w")]
      + (if |ws| == 1 then [] else [Lit(", ")] + SrcsetPieces(ws[1..], format))
  }

  /** The opening tag of the element. */
  const PictureTag: string := "<picture>"

  /** The fixed text of the template up to the first URL. */
  const PictureOpen: string := PictureTag + "\n  <source type=\"image/avif\" srcset=\""

  /** The fixed text between the AVIF and the WebP source sets. */
  const WebpOpen: string := "\" sizes=\"" + Sizes + "\">\n  <source type=\"image/webp\" srcset=\""

  /** The fixed text between the WebP source set and the fallback URL. */
  const FallbackOpen: string := "\" sizes=\"" + Sizes + "\">\n  <img src=\""

  /** The end of the fallback `<img>` tag and of the element. */
  const PictureClose: string := ">\n</picture>"

  /** The text after the fallback URL: the escaped alt text and the
      optional loading and decoding attributes. */
  function FallbackAttributes(img: Img): (r: string)
    ensures |r| > 0 && r[|r| - 1] == '>'
  {
    "\" alt=\"" + EscapeHtml(img.alt) + "\""
    + (if img.addLoading then " loading=\"lazy\"" else "")
    + (if img.addDecoding then " decoding=\"async\"" else "")
    + PictureClose
  }

  /** The `<picture>` template, with the URLs left as holes. */
  function Template(img: Img): (r: seq<Piece>)
    ensures |r| == 27 && r[0] == Lit(PictureOpen) && r[26] == Lit(FallbackAttributes(img))
  {
    [Lit(PictureOpen)]
    + SrcsetPieces(Widths, "avif")
    + [Lit(WebpOpen)]
    + SrcsetPieces(Widths, "webp")
    + [Lit(FallbackOpen), Url(FallbackWidth, img.fallbackExt), Lit(FallbackAttributes(img))]
  }

  /** The pieces with every URL filled in by `makePath`. */
  function Render(ps: seq<Piece>, base: string, img: Img): string {
    if ps == [] then ""
    else
      (match ps[0]
       case Lit(t) => t
       case Url(w, f) => MakePath(base, img, w, f))
      + Render(ps[1..], base, img)
  }

  /** The replacement for the tag described by `img`: the template
      literal (which starts with a line break) trimmed. */
  function Picture(img: Img, base: string): string {
    Trim("\n" + Render(Template(img), base, img))
  }

  /** `html.replace(re, callback)` from index `i` on, with `pic` as the
      callback: each match is replaced by the text `pic` renders for the
      tag it describes, and the text between matches is kept. */
  function TransformWith(s: string, i: nat, pic: Img -> string): (r: string)
    requires i <= |s|
    ensures FindImg(s, i).None? ==> r == s[i..]
    decreases |s| - i
  {
    match FindImg(s, i)
    case None => s[i..]
    case Some(m) =>
      s[i..m.start] + pic(Describe(s[m.start..m.end], s[m.srcStart..m.srcEnd]))
      + TransformWith(s, m.end, pic)
  }

  /** The callback of `transformImages` for the base `base`. */
  function PictureFor(base: string): Img -> string {
    img => Picture(img, base)
  }

  /** `transformImages(html, base)`. */
  function TransformImages(html: string, base: string): string {
    TransformWith(html, 0, PictureFor(base))
  }
}
