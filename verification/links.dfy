/** The link normaliser of scripts/build.mjs (`normalizeLinks`): links to
    a directory's `index.html` become links to the directory, and a second
    replacement rewrites in-page anchors to exactly the text they had. */
module Links {
  import opened Text

  /** What the first pattern looks for after its `/`. */
  const IndexWord: string := "index.html"

  /** The characters of `index.html` that the proofs below use. */
  lemma {:induction false} IndexWordFacts()
    ensures |IndexWord| == 10 && IndexWord[0] == 'i'
    ensures forall m :: 0 <= m < 10 ==> IndexWord[m] != '/'
  {
  }

  /** `\/index\.html(#|\b)` at `p`: where the match ends. The `#`
      alternative is tried first; the word boundary after the final `l`
      holds at the end of the text and before any character outside
      `\w`. */
  function IndexLinkAt(s: string, p: nat): (r: Option<nat>)
    requires p <= |s|
    ensures r.Some? ==> p + 11 <= r.value <= p + 12 && r.value <= |s|
    ensures r.Some? ==> s[p] == '/'
  {
    if !(p < |s| && s[p] == '/' && HasAt(s, p + 1, IndexWord)) then None
    else if p + 11 < |s| && s[p + 11] == '#' then Some(p + 12)
    else if p + 11 == |s| || !IsWordChar(s[p + 11]) then Some(p + 11)
    else None
  }

  /** `s.replaceAll(/\/index\.html(#|\b)/g, "/$1")` from index `i` on: each
      match, leftmost first, becomes `/` followed by its capture (`#` or
      nothing), and the search goes on after the match. */
  function RewriteIndexFrom(s: string, i: nat): (r: string)
    requires i <= |s|
    decreases |s| - i
  {
    if i == |s| then ""
    else match IndexLinkAt(s, i)
      case Some(e) => "/" + s[i + 11..e] + RewriteIndexFrom(s, e)
      case None => [s[i]] + RewriteIndexFrom(s, i + 1)
  }

  /** The text the second pattern starts with. */
  const AnchorOpen: string := "href=\"#"

  /** The lazy `(.*?)"` from `k`: the first quote, provided no line
      terminator (which `.` does not match) comes before it. */
  function QuoteBeforeLineEnd(s: string, k: nat): (r: Option<nat>)
    requires k <= |s|
    ensures r.Some? ==> k <= r.value < |s| && s[r.value] == '"'
    decreases |s| - k
  {
    if k == |s| then None
    else if s[k] == '"' then Some(k)
    else if IsLineTerminator(s[k]) then None
    else QuoteBeforeLineEnd(s, k + 1)
  }

  /** `href="\#(.*?)"` at `p`: where the match ends. */
  function AnchorAt(s: string, p: nat): (r: Option<nat>)
    requires p <= |s|
    ensures r.Some? ==> p + 8 <= r.value <= |s| && HasAt(s, p, AnchorOpen) && s[r.value - 1] == '"'
  {
    if !HasAt(s, p, AnchorOpen) then None
    else match QuoteBeforeLineEnd(s, p + 7)
      case Some(q) => Some(q + 1)
      case None => None
  }

  /** `s.replaceAll(/href="\#(.*?)"/g, 'href="#$1"')` from index `i` on. */
  function KeepAnchorsFrom(s: string, i: nat): (r: string)
    requires i <= |s|
    decreases |s| - i
  {
    if i == |s| then ""
    else match AnchorAt(s, i)
      case Some(e) => AnchorOpen + s[i + 7..e - 1] + "\"" + KeepAnchorsFrom(s, e)
      case None => [s[i]] + KeepAnchorsFrom(s, i + 1)
  }

  /** `normalizeLinks(html)`. */
  function NormalizeLinks(html: string): string {
    KeepAnchorsFrom(RewriteIndexFrom(html, 0), 0)
  }

  /** The text holds no match of the first pattern. */
  predicate NoIndexLink(t: string) {
    forall p :: 0 <= p <= |t| ==> IndexLinkAt(t, p).None?
  }

  /** The anchor replacement writes back exactly the text it matched. */
  lemma {:induction false} KeepAnchorsIdentity(s: string, i: nat)
    requires i <= |s|
    ensures KeepAnchorsFrom(s, i) == s[i..]
    decreases |s| - i
  {
    if i < |s| {
      match AnchorAt(s, i)
      case Some(e) =>
        KeepAnchorsIdentity(s, e);
        AnchorWrittenBack(s, i, e);
      case None =>
        KeepAnchorsIdentity(s, i + 1);
        PlainKeptBack(s, i);
    }
  }

  /** A character no anchor starts at is copied. */
  lemma {:induction false} PlainKeptBack(s: string, i: nat)
    requires i < |s| && AnchorAt(s, i).None? && KeepAnchorsFrom(s, i + 1) == s[i + 1..]
    ensures KeepAnchorsFrom(s, i) == s[i..]
  {
    assert s[i..] == [s[i]] + s[i + 1..];
  }

  /** One anchor match is written back as it was. */
  lemma {:induction false} AnchorWrittenBack(s: string, i: nat, e: nat)
    requires i < |s| && AnchorAt(s, i) == Some(e) && KeepAnchorsFrom(s, e) == s[e..]
    ensures KeepAnchorsFrom(s, i) == s[i..]
  {
    AnchorPieces(s, i, e);
  }

  /** One anchor match and the text after it, put back together. */
  lemma {:induction false} AnchorPieces(s: string, i: nat, e: nat)
    requires i < |s| && AnchorAt(s, i) == Some(e)
    ensures AnchorOpen + s[i + 7..e - 1] + "\"" + s[e..] == s[i..]
  {
    assert s[i..i + 7] == AnchorOpen;
    assert s[e - 1..e] == "\"";
    assert s[i..] == s[i..i + 7] + s[i + 7..e - 1] + s[e - 1..e] + s[e..];
  }

  /** `normalizeLinks` is the first replacement alone. */
  lemma {:induction false} NormalizeLinksIsRewrite(html: string)
    ensures NormalizeLinks(html) == RewriteIndexFrom(html, 0)
  {
    KeepAnchorsIdentity(RewriteIndexFrom(html, 0), 0);
  }

  /** Whether the first pattern matches depends only on the text from the
      position on. */
  lemma {:induction false} IndexLinkShift(a: string, b: string, k: nat)
    requires k <= |b|
    ensures IndexLinkAt(a + b, |a| + k).None? == IndexLinkAt(b, k).None?
  {
    var s := a + b;
    var p := |a| + k;
    if k + 11 <= |b| {
      assert s[p + 1..p + 11] == b[k + 1..k + 11];
    }
    if k < |b| {
      assert s[p] == b[k];
    }
    if k + 11 < |b| {
      assert s[p + 11] == b[k + 11];
    }
  }

  /** A stretch without `/` is copied as it is. */
  lemma {:induction false} CopyWithoutSlash(s: string, j: nat, k: nat)
    requires j + k <= |s| && '/' !in s[j..j + k]
    ensures RewriteIndexFrom(s, j) == s[j..j + k] + RewriteIndexFrom(s, j + k)
    decreases k
  {
    if k > 0 {
      var rest := s[j + 1..j + k];
      assert s[j..j + k] == [s[j]] + rest;
      CopyWithoutSlash(s, j + 1, k - 1);
      PlainRewrite(s, j);
    }
  }

  /** A character other than `/` is copied. */
  lemma {:induction false} PlainRewrite(s: string, j: nat)
    requires j < |s| && s[j] != '/'
    ensures RewriteIndexFrom(s, j) == [s[j]] + RewriteIndexFrom(s, j + 1)
  {
  }

  /** Where the text has a `/`, the rewritten text has one too. */
  lemma {:induction false} SlashKept(s: string, j: nat)
    requires j < |s| && s[j] == '/'
    ensures RewriteIndexFrom(s, j) != [] && RewriteIndexFrom(s, j)[0] == '/'
  {
  }

  /** Where the text has no `/`, the rewritten text starts with the same
      character. */
  lemma {:induction false} PlainKept(s: string, j: nat)
    requires j < |s| && s[j] != '/'
    ensures RewriteIndexFrom(s, j) != [] && RewriteIndexFrom(s, j)[0] == s[j]
  {
  }

  /** The first `/` in `s[lo..]` at or before `m`. */
  function FirstSlash(s: string, lo: nat, m: nat): (r: nat)
    requires lo <= m < |s| && s[m] == '/'
    ensures lo <= r <= m && s[r] == '/' && forall k :: lo <= k < r ==> s[k] != '/'
    decreases m - lo
  {
    if s[lo] == '/' then lo else FirstSlash(s, lo + 1, m)
  }

  /** The ten characters after a `/` that no match starts at are, once
      rewritten, not `index.html`: either they are copied, and the match
      would have been there before, or one of them is a `/`, which
      `index.html` does not hold. */
  lemma {:induction false} CopiedTailNotIndex(s: string, i: nat)
    requires i < |s| && s[i] == '/' && IndexLinkAt(s, i).None?
    ensures var t := RewriteIndexFrom(s, i + 1);
      !HasAt(t, 0, IndexWord) || (|t| > 10 && IsWordChar(t[10]) && t[10] != '#')
  {
    if m :| i + 1 <= m < i + 11 && m < |s| && s[m] == '/' {
      SlashInTail(s, i, m);
    } else if |s| < i + 11 {
      ShortTail(s, i);
    } else {
      assert '/' !in s[i + 1..i + 11];
      FullTail(s, i);
    }
  }

  /** A `/` among the ten characters is kept, so they cannot spell
      `index.html`. */
  lemma {:induction false} SlashInTail(s: string, i: nat, m: nat)
    requires i + 1 <= m < i + 11 && m < |s| && s[m] == '/'
    ensures !HasAt(RewriteIndexFrom(s, i + 1), 0, IndexWord)
  {
    IndexWordFacts();
    var t := RewriteIndexFrom(s, i + 1);
    var m0 := FirstSlash(s, i + 1, m);
    var d := m0 - (i + 1);
    assert '/' !in s[i + 1..m0];
    CopyWithoutSlash(s, i + 1, d);
    SlashKept(s, m0);
    assert t[d] == '/' != IndexWord[d];
    if |t| >= 10 {
      assert t[..10][d] != IndexWord[d];
    }
  }

  /** Fewer than ten characters without `/` stay fewer than ten. */
  lemma {:induction false} ShortTail(s: string, i: nat)
    requires i < |s| < i + 11 && '/' !in s[i + 1..]
    ensures |RewriteIndexFrom(s, i + 1)| < 10
  {
    CopyToEnd(s, i + 1);
  }

  /** Ten characters without `/` are copied; if they spell `index.html`,
      the next one is a word character, also copied. */
  lemma {:induction false} FullTail(s: string, i: nat)
    requires i + 11 <= |s| && s[i] == '/' && IndexLinkAt(s, i).None?
    requires '/' !in s[i + 1..i + 11]
    ensures var t := RewriteIndexFrom(s, i + 1);
      !HasAt(t, 0, IndexWord) || (|t| > 10 && IsWordChar(t[10]) && t[10] != '#')
  {
    var t := RewriteIndexFrom(s, i + 1);
    CopyWithoutSlash(s, i + 1, 10);
    assert t[..10] == s[i + 1..i + 11];
    if s[i + 1..i + 11] == IndexWord {
      assert HasAt(s, i + 1, IndexWord);
      assert i + 11 < |s| && IsWordChar(s[i + 11]) && s[i + 11] != '#';
      PlainKept(s, i + 11);
      assert t[10] == s[i + 11];
    }
  }

  /** A `/` copied because no match starts at it does not start a match
      in the output. */
  lemma {:induction false} CopiedSlashNoMatch(s: string, i: nat)
    requires i < |s| && s[i] == '/' && IndexLinkAt(s, i).None?
    ensures IndexLinkAt([s[i]] + RewriteIndexFrom(s, i + 1), 0).None?
  {
    var t := RewriteIndexFrom(s, i + 1);
    var o := [s[i]] + t;
    CopiedTailNotIndex(s, i);
    if HasAt(o, 1, IndexWord) {
      assert o[1..11] == t[..10];
      assert o[11] == t[10];
    }
  }

  /** What a match writes cannot start a match itself: the `/` it writes
      is followed by `#` or by a character outside `\w`, neither of which
      starts `index.html`, and the `#` is not a `/`. */
  lemma {:induction false} WrittenNoMatch(s: string, i: nat, e: nat, p: nat)
    requires i < |s| && IndexLinkAt(s, i) == Some(e) && p <= e - (i + 11)
    ensures IndexLinkAt("/" + s[i + 11..e] + RewriteIndexFrom(s, e), p).None?
  {
    IndexWordFacts();
    var t := RewriteIndexFrom(s, e);
    var o := "/" + s[i + 11..e] + t;
    if p == 1 {
      assert o[1] == '#';
    } else if e == i + 12 {
      assert o[1] == '#';
    } else if e < |s| {
      if s[e] == '/' {
        SlashKept(s, e);
      } else {
        PlainKept(s, e);
      }
      assert o[1] == t[0];
    } else {
      assert |o| == 1;
    }
  }

  /** The output of the first replacement holds no match of its pattern. */
  lemma {:induction false} RewriteMatchFree(s: string, i: nat)
    requires i <= |s|
    ensures NoIndexLink(RewriteIndexFrom(s, i))
    decreases |s| - i
  {
    if i == |s| {
      assert RewriteIndexFrom(s, i) == "";
    } else {
      match IndexLinkAt(s, i)
      case Some(e) =>
        RewriteMatchFree(s, e);
        MatchFreeAfterMatch(s, i, e);
      case None =>
        RewriteMatchFree(s, i + 1);
        MatchFreeAfterCopy(s, i);
    }
  }

  /** RewriteMatchFree at a match, given it after the match. */
  lemma {:induction false} MatchFreeAfterMatch(s: string, i: nat, e: nat)
    requires i < |s| && IndexLinkAt(s, i) == Some(e)
    requires NoIndexLink(RewriteIndexFrom(s, e))
    ensures NoIndexLink(RewriteIndexFrom(s, i))
  {
    var o := RewriteIndexFrom(s, i);
    var piece := "/" + s[i + 11..e];
    var t := RewriteIndexFrom(s, e);
    MatchedRewrite(s, i, e);
    assert o == piece + t;
    forall p | 0 <= p <= |o| ensures IndexLinkAt(o, p).None? {
      if p >= |piece| {
        IndexLinkShift(piece, t, p - |piece|);
      } else {
        WrittenNoMatch(s, i, e, p);
      }
    }
  }

  /** RewriteMatchFree at a copied character, given it after the
      character. */
  lemma {:induction false} MatchFreeAfterCopy(s: string, i: nat)
    requires i < |s| && IndexLinkAt(s, i).None?
    requires NoIndexLink(RewriteIndexFrom(s, i + 1))
    ensures NoIndexLink(RewriteIndexFrom(s, i))
  {
    var o := RewriteIndexFrom(s, i);
    var t := RewriteIndexFrom(s, i + 1);
    UnmatchedCopied(s, i);
    forall p | 0 <= p <= |o| ensures IndexLinkAt(o, p).None? {
      if p >= 1 {
        IndexLinkShift([s[i]], t, p - 1);
      } else if s[i] == '/' {
        CopiedSlashNoMatch(s, i);
      }
    }
  }


  /** Text without a match of the first pattern passes through it
      unchanged. */
  lemma {:induction false} RewriteIdentity(t: string, i: nat)
    requires i <= |t| && NoIndexLink(t)
    ensures RewriteIndexFrom(t, i) == t[i..]
    decreases |t| - i
  {
    if i < |t| {
      assert IndexLinkAt(t, i).None?;
      RewriteIdentity(t, i + 1);
      assert t[i..] == [t[i]] + t[i + 1..];
    }
  }

  /** Normalising twice is normalising once. */
  lemma {:induction false} NormalizeLinksIdempotent(html: string)
    ensures NormalizeLinks(NormalizeLinks(html)) == NormalizeLinks(html)
  {
    var once := RewriteIndexFrom(html, 0);
    NormalizeLinksIsRewrite(html);
    NormalizeLinksIsRewrite(once);
    RewriteMatchFree(html, 0);
    RewriteIdentity(once, 0);
  }

  /** Text without a match of the first pattern comes out unchanged. */
  lemma {:induction false} NormalizeLinksKeepsPlain(html: string)
    requires NoIndexLink(html)
    ensures NormalizeLinks(html) == html
  {
    NormalizeLinksIsRewrite(html);
    RewriteIdentity(html, 0);
  }

  /** Text from `j` on without `/` is copied to the end. */
  lemma {:induction false} CopyToEnd(s: string, j: nat)
    requires j <= |s| && '/' !in s[j..]
    ensures RewriteIndexFrom(s, j) == s[j..]
  {
    assert s[j..] == s[j..|s|];
    CopyWithoutSlash(s, j, |s| - j);
    assert s[j..|s|] + "" == s[j..|s|];
  }

  /** A stretch where no match starts is copied as it is. */
  lemma {:induction false} CopyNoMatch(s: string, j: nat, k: nat)
    requires j + k <= |s|
    requires forall p :: j <= p < j + k ==> IndexLinkAt(s, p).None?
    ensures RewriteIndexFrom(s, j) == s[j..j + k] + RewriteIndexFrom(s, j + k)
    decreases k
  {
    if k > 0 {
      CopyNoMatch(s, j + 1, k - 1);
      UnmatchedCopied(s, j);
      CopyStep(s, j, k, RewriteIndexFrom(s, j + k));
    }
  }

  /** Where no match starts, the character is copied. */
  lemma {:induction false} UnmatchedCopied(s: string, k: nat)
    requires k < |s| && IndexLinkAt(s, k).None?
    ensures RewriteIndexFrom(s, k) == [s[k]] + RewriteIndexFrom(s, k + 1)
  {
  }

  /** Where a match starts, it is rewritten and the search goes on after it. */
  lemma {:induction false} MatchedRewrite(s: string, k: nat, e: nat)
    requires k < |s| && IndexLinkAt(s, k) == Some(e)
    ensures RewriteIndexFrom(s, k) == "/" + s[k + 11..e] + RewriteIndexFrom(s, e)
  {
  }

  /** One copied character in front of a copied stretch. */
  lemma {:induction false} CopyStep(s: string, j: nat, k: nat, t: string)
    requires 0 < k && j + k <= |s|
    ensures [s[j]] + (s[j + 1..j + k] + t) == s[j..j + k] + t
  {
    assert s[j..j + k] == [s[j]] + s[j + 1..j + k];
  }

  /** One match, and none anywhere else: the match loses `index.html`
      and everything else is copied. */
  lemma {:induction false} OnlyMatchRewritten(s: string, k: nat)
    requires k < |s| && IndexLinkAt(s, k).Some?
    requires forall j :: 0 <= j <= |s| && j != k ==> IndexLinkAt(s, j).None?
    ensures RewriteIndexFrom(s, 0) == s[..k] + "/" + s[k + 11..]
  {
    CopyNoMatch(s, 0, k);
    OnlyMatchTail(s, k);
    JoinPieces(RewriteIndexFrom(s, 0), RewriteIndexFrom(s, k), s[0..k], s[k + 11..]);
  }

  /** A copied prefix in front of a rewritten tail. */
  lemma {:induction false} JoinPieces(r: string, t: string, pre: string, post: string)
    requires r == pre + t && t == "/" + post
    ensures r == pre + "/" + post
  {
  }

  /** From the only match on, the match loses `index.html` and the rest
      is copied. */
  lemma {:induction false} OnlyMatchTail(s: string, k: nat)
    requires k < |s| && IndexLinkAt(s, k).Some?
    requires forall j :: k < j <= |s| ==> IndexLinkAt(s, j).None?
    ensures RewriteIndexFrom(s, k) == "/" + s[k + 11..]
  {
    var e := IndexLinkAt(s, k).value;
    MatchedRewrite(s, k, e);
    CopyNoMatch(s, e, |s| - e);
    assert RewriteIndexFrom(s, |s|) == "";
    assert s[k + 11..e] + s[e..|s|] == s[k + 11..];
  }

  /** A match found in the tail of a longer text is the tail's match,
      moved along: the pattern looks only forward. */
  lemma {:induction false} IndexLinkShiftValue(a: string, b: string, k: nat)
    requires k <= |b|
    ensures IndexLinkAt(a + b, |a| + k)
         == if IndexLinkAt(b, k).Some? then Some(|a| + IndexLinkAt(b, k).value) else None
  {
    var s := a + b;
    var p := |a| + k;
    if k + 11 <= |b| {
      assert s[p + 1..p + 11] == b[k + 1..k + 11];
    }
    if k < |b| {
      assert s[p] == b[k];
    }
    if k + 11 < |b| {
      assert s[p + 11] == b[k + 11];
    }
  }

  /** Rewriting the tail of a longer text is rewriting the tail alone. */
  lemma {:induction false} RewriteShift(a: string, b: string, k: nat)
    requires k <= |b|
    ensures RewriteIndexFrom(a + b, |a| + k) == RewriteIndexFrom(b, k)
    decreases |b| - k
  {
    if k < |b| {
      match IndexLinkAt(b, k)
      case Some(e) =>
        RewriteShift(a, b, e);
        ShiftMatched(a, b, k, e);
      case None =>
        RewriteShift(a, b, k + 1);
        ShiftCopied(a, b, k);
    }
  }

  /** RewriteShift at a match, given it after the match. */
  lemma {:induction false} ShiftMatched(a: string, b: string, k: nat, e: nat)
    requires k < |b| && IndexLinkAt(b, k) == Some(e)
    requires RewriteIndexFrom(a + b, |a| + e) == RewriteIndexFrom(b, e)
    ensures RewriteIndexFrom(a + b, |a| + k) == RewriteIndexFrom(b, k)
  {
    IndexLinkShiftValue(a, b, k);
    MatchedRewrite(a + b, |a| + k, |a| + e);
    MatchedRewrite(b, k, e);
    SliceShift(a, b, k + 11, e);
    SameRewrite(RewriteIndexFrom(a + b, |a| + k), RewriteIndexFrom(b, k),
                (a + b)[|a| + k + 11..|a| + e], b[k + 11..e],
                RewriteIndexFrom(a + b, |a| + e), RewriteIndexFrom(b, e));
  }

  /** A slice of the tail of a longer text, found in the longer text. */
  lemma {:induction false} SliceShift(a: string, b: string, i: nat, j: nat)
    requires i <= j <= |b|
    ensures (a + b)[|a| + i..|a| + j] == b[i..j]
  {
  }

  /** Two rewritten matches with equal captures and equal tails agree. */
  lemma {:induction false} SameRewrite(r: string, u: string, c: string, d: string, t: string, v: string)
    requires r == "/" + c + t && u == "/" + d + v && c == d && t == v
    ensures r == u
  {
  }

  /** RewriteShift at a copied character, given it after the character. */
  lemma {:induction false} ShiftCopied(a: string, b: string, k: nat)
    requires k < |b| && IndexLinkAt(b, k).None?
    requires RewriteIndexFrom(a + b, |a| + (k + 1)) == RewriteIndexFrom(b, k + 1)
    ensures RewriteIndexFrom(a + b, |a| + k) == RewriteIndexFrom(b, k)
  {
    var s := a + b;
    IndexLinkShiftValue(a, b, k);
    UnmatchedCopied(s, |a| + k);
    UnmatchedCopied(b, k);
    assert s[|a| + k] == b[k];
  }

  /** Before a `/` (or the end), a match in the head of a text is the
      same as in the head alone: none can reach across the `/`, since
      `index.html` holds none, and the `/` is a word boundary. */
  lemma {:induction false} PrefixMatchSame(a: string, b: string, p: nat)
    requires p < |a| && (b == [] || b[0] == '/')
    ensures IndexLinkAt(a + b, p) == IndexLinkAt(a, p)
  {
    IndexWordFacts();
    var s := a + b;
    if b == [] {
      assert s == a;
    } else if p + 11 <= |a| {
      assert s[p] == a[p];
      assert s[p + 1..p + 11] == a[p + 1..p + 11];
      if p + 11 < |a| {
        assert s[p + 11] == a[p + 11];
      } else {
        assert s[p + 11] == '/';
      }
    } else {
      var m := |a| - p - 1;
      assert s[|a|] == '/';
      assert !HasAt(s, p + 1, IndexWord) by {
        if p + 11 <= |s| {
          assert s[p + 1..p + 11][m] == '/';
        }
      }
    }
  }

  /** Rewriting a text that a `/` (or the end) follows stops at that `/`. */
  lemma {:induction false} RewritePrefix(a: string, b: string, i: nat)
    requires i <= |a| && (b == [] || b[0] == '/')
    ensures RewriteIndexFrom(a + b, i) == RewriteIndexFrom(a, i) + RewriteIndexFrom(a + b, |a|)
    decreases |a| - i
  {
    if i < |a| {
      PrefixMatchSame(a, b, i);
      assert (a + b)[i] == a[i];
      match IndexLinkAt(a, i)
      case Some(e) =>
        RewritePrefix(a, b, e);
        assert (a + b)[i + 11..e] == a[i + 11..e];
        ConcatAssoc("/" + a[i + 11..e], RewriteIndexFrom(a, e), RewriteIndexFrom(a + b, |a|));
      case None =>
        RewritePrefix(a, b, i + 1);
        ConcatAssoc([a[i]], RewriteIndexFrom(a, i + 1), RewriteIndexFrom(a + b, |a|));
    } else {
      assert RewriteIndexFrom(a, i) == "";
    }
  }

  /** The link normaliser splits at every `/`: a page is normalised piece
      by piece, whatever the pieces before and after hold. */
  lemma {:induction false} NormalizeLinksSplit(a: string, b: string)
    requires b == [] || b[0] == '/'
    ensures NormalizeLinks(a + b) == NormalizeLinks(a) + NormalizeLinks(b)
  {
    RewritePrefix(a, b, 0);
    RewriteShift(a, b, 0);
    NormalizeLinksIsRewrite(a + b);
    NormalizeLinksIsRewrite(a);
    NormalizeLinksIsRewrite(b);
  }

  /** The first pattern at the start of `/index.html` and what follows:
      a match exactly when `#`, a character outside `\w` or nothing
      follows. */
  lemma {:induction false} HeadMatch(h: string, rest: string)
    requires |h| == 11 && h[0] == '/' && h[1..] == IndexWord
    ensures IndexLinkAt(h + rest, 0)
         == if rest != [] && rest[0] == '#' then Some(12)
            else if rest == [] || !IsWordChar(rest[0]) then Some(11)
            else None
  {
    var b := h + rest;
    assert b[0] == '/' && b[1..11] == h[1..];
    if rest != [] {
      assert b[11] == rest[0];
    }
  }

  /** `/index.html` before `#`, a character outside `\w` or the end is a
      match, rewritten to `/`. */
  lemma {:induction false} MatchRewritten(h: string, rest: string)
    requires |h| == 11 && h[0] == '/' && h[1..] == IndexWord
    requires rest == [] || rest[0] == '#' || !IsWordChar(rest[0])
    ensures RewriteIndexFrom(h + rest, 0) == "/" + RewriteIndexFrom(rest, 0)
  {
    HeadMatch(h, rest);
    if rest != [] && rest[0] == '#' {
      MatchWithHash(h, rest);
    } else {
      MatchAtBoundary(h, rest);
    }
  }

  /** `/index.html#` is rewritten to `/#`. */
  lemma {:induction false} MatchWithHash(h: string, rest: string)
    requires |h| == 11 && rest != [] && IndexLinkAt(h + rest, 0) == Some(12)
    requires IndexLinkAt(rest, 0).None?
    ensures RewriteIndexFrom(h + rest, 0) == "/" + RewriteIndexFrom(rest, 0)
  {
    var b := h + rest;
    MatchedRewrite(b, 0, 12);
    assert b[11..12] == [rest[0]];
    RewriteShift(h, rest, 1);
    UnmatchedCopied(rest, 0);
    PrependSlash(RewriteIndexFrom(b, 0), [rest[0]], RewriteIndexFrom(rest, 1), RewriteIndexFrom(rest, 0));
  }

  /** `/index.html` at a word boundary is rewritten to `/`. */
  lemma {:induction false} MatchAtBoundary(h: string, rest: string)
    requires |h| == 11 && IndexLinkAt(h + rest, 0) == Some(11)
    ensures RewriteIndexFrom(h + rest, 0) == "/" + RewriteIndexFrom(rest, 0)
  {
    var b := h + rest;
    MatchedRewrite(b, 0, 11);
    RewriteShift(h, rest, 0);
    PrependSlash(RewriteIndexFrom(b, 0), [], RewriteIndexFrom(rest, 0), RewriteIndexFrom(rest, 0));
  }

  /** A slash and a captured stretch in front of a copied tail. */
  lemma {:induction false} PrependSlash(r: string, c: string, t: string, u: string)
    requires r == "/" + c + t && u == c + t
    ensures r == "/" + u
  {
  }

  /** `/index.html` before a character of `\w` is no match, and is copied. */
  lemma {:induction false} MatchMissed(h: string, rest: string)
    requires |h| == 11 && h[0] == '/' && h[1..] == IndexWord
    requires rest != [] && IsWordChar(rest[0])
    ensures RewriteIndexFrom(h + rest, 0) == h + RewriteIndexFrom(rest, 0)
  {
    IndexWordFacts();
    var b := h + rest;
    HeadMatch(h, rest);
    assert forall p :: 1 <= p < 11 ==> b[p] == IndexWord[p - 1];
    CopyNoMatch(b, 0, 11);
    assert b[0..11] == h;
    RewriteShift(h, rest, 0);
  }

  /** The text `/index.html`. */
  lemma {:induction false} IndexLinkText()
    ensures var h := "/" + IndexWord; |h| == 11 && h[0] == '/' && h[1..] == IndexWord
  {
  }

  /** A link to a directory's `index.html`, followed by `#`, by a character
      outside `\w` or by nothing, becomes a link to the directory:
      `/blog/index.html#top` gives `/blog/#top` and `/blog/index.html"`
      gives `/blog/"`. The text around it is normalised on its own. */
  lemma {:induction false} DirectoryIndexLink(dir: string, rest: string)
    requires rest == [] || rest[0] == '#' || !IsWordChar(rest[0])
    ensures NormalizeLinks(dir + "/" + IndexWord + rest)
         == NormalizeLinks(dir) + "/" + NormalizeLinks(rest)
  {
    assert dir + "/" + IndexWord + rest == dir + ("/" + IndexWord + rest);
    NormalizeLinksSplit(dir, "/" + IndexWord + rest);
    IndexLinkText();
    MatchRewritten("/" + IndexWord, rest);
    NormalizeLinksIsRewrite("/" + IndexWord + rest);
    NormalizeLinksIsRewrite(rest);
  }

  /** `/index.html` followed by a word character is not a match of the
      first pattern: `/index.htmlx` stays as it is, and the text around it
      is normalised on its own. */
  lemma {:induction false} IndexWordContinued(dir: string, rest: string)
    requires rest != [] && IsWordChar(rest[0])
    ensures NormalizeLinks(dir + "/" + IndexWord + rest)
         == NormalizeLinks(dir) + "/" + IndexWord + NormalizeLinks(rest)
  {
    assert dir + "/" + IndexWord + rest == dir + ("/" + IndexWord + rest);
    NormalizeLinksSplit(dir, "/" + IndexWord + rest);
    IndexLinkText();
    MatchMissed("/" + IndexWord, rest);
    NormalizeLinksIsRewrite("/" + IndexWord + rest);
    NormalizeLinksIsRewrite(rest);
  }

  /** Around text without index links, the link is all that changes. */
  lemma {:induction false} DirectoryLinkInPage(dir: string, rest: string)
    requires NoIndexLink(dir) && NoIndexLink(rest)
    requires rest == [] || rest[0] == '#' || !IsWordChar(rest[0])
    ensures NormalizeLinks(dir + "/" + IndexWord + rest) == dir + "/" + rest
  {
    DirectoryIndexLink(dir, rest);
    NormalizeLinksKeepsPlain(dir);
    NormalizeLinksKeepsPlain(rest);
  }
}
