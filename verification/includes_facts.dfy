/** What `resolveIncludes` does, stated over the model in includes.dfy, and
    the corrected resolver that the quirks of the loop call for. */
module IncludeFacts {
  import opened Text
  import opened Paths
  import opened Includes

  /** `exec` from the start finds a match whenever some position has the
      directive's shape, and the one it finds starts no later. */
  lemma {:induction false} ExecFindsEarliest(s: string, p: nat, q: nat, r: nat, e: nat)
    requires IsDirectiveMatch(s, p, q, r, e)
    ensures Exec(s, 0).Some? && Exec(s, 0).value.start <= p
  {
    DirectiveAtComplete(s, p, q, r, e);
    ExecNone(s, 0);
    ExecFirst(s, 0);
  }

  /** `exec` from the start fails only on text in which nothing has the
      directive's shape. */
  lemma NoExecNoDirective(s: string)
    requires Exec(s, 0).None?
    ensures forall p, q, r, e :: !IsDirectiveMatch(s, p, q, r, e)
  {
    ExecNone(s, 0);
    forall p, q, r, e ensures !IsDirectiveMatch(s, p, q, r, e) {
      DirectiveAtComplete(s, p, q, r, e);
    }
  }

  /** Text in which nothing has the directive's shape comes back unchanged,
      whatever the file system holds. */
  lemma NoDirectiveUnchanged(fs: FileSystem, html: string, baseDir: string, fuel: nat)
    requires forall p, q, r, e :: !IsDirectiveMatch(html, p, q, r, e)
    ensures Scan(fs, html, baseDir, 0, fuel) == Resolved(html)
  {
    forall p | 0 <= p <= |html| ensures DirectiveAt(html, p).None? {
      DirectiveAtSound(html, p);
    }
    ExecNone(html, 0);
  }

  /** Wherever the text of a match of the pattern occurs again, the
      pattern matches there too: the keyword and the white space are
      copied, and the path starts with the same character. */
  lemma ShapeShift(s: string, p: nat, q: nat, r: nat, e: nat, k: nat)
    requires IsDirectiveMatch(s, p, q, r, e)
    requires HasAt(s, k, s[p..e])
    ensures var q' := k + (q - p);
      q' < |s| && IsDirectiveMatch(s, k, q', q' + LineRun(s, q'), q' + LineRun(s, q'))
  {
    CopiedAt(s, p, e, k);
    KeywordCopied(s, p, e, k);
    var q' := k + (q - p);
    forall j | k + |Keyword| <= j < q' ensures IsSpace(s[j]) {
      assert s[j] == s[p + (j - k)];
    }
    assert s[q'] == s[q];
  }

  /** Where `s[p..e]` occurs again at `k`, character for character. */
  lemma CopiedAt(s: string, p: nat, e: nat, k: nat)
    requires p <= e <= |s| && HasAt(s, k, s[p..e])
    ensures forall j :: k <= j < k + (e - p) ==> s[j] == s[p + (j - k)]
  {
    forall j | k <= j < k + (e - p) ensures s[j] == s[p + (j - k)] {
      assert s[k..k + (e - p)][j - k] == s[p..e][j - k];
    }
  }

  /** The keyword at the front of a match is copied with it. */
  lemma KeywordCopied(s: string, p: nat, e: nat, k: nat)
    requires p + |Keyword| <= e <= |s| && HasAt(s, p, Keyword)
    requires k + (e - p) <= |s|
    requires forall j :: k <= j < k + (e - p) ==> s[j] == s[p + (j - k)]
    ensures HasAt(s, k, Keyword)
  {
    forall i | 0 <= i < |Keyword| ensures s[k..k + |Keyword|][i] == Keyword[i] {
      assert s[k + i] == s[p + i];
      assert s[p..p + |Keyword|][i] == Keyword[i];
    }
    assert s[k..k + |Keyword|] == Keyword;
  }

  /** A copy of a reported match's text elsewhere is itself a place where
      the pattern matches. */
  lemma CopyIsDirective(s: string, d: Directive, k: nat)
    requires d.start <= |s| && DirectiveAt(s, d.start) == Some(d)
    ensures HasAt(s, k, s[d.start..d.end]) ==> DirectiveAt(s, k).Some?
  {
    if HasAt(s, k, s[d.start..d.end]) {
      DirectiveAtSound(s, d.start);
      assert IsDirectiveMatch(s, d.start, d.pathStart, d.pathEnd, d.end);
      ShapeShift(s, d.start, d.pathStart, d.pathEnd, d.end, k);
      var q := k + (d.pathStart - d.start);
      var r := q + LineRun(s, q);
      assert IsDirectiveMatch(s, k, q, r, r);
      DirectiveAtComplete(s, k, q, r, r);
    }
  }

  /** `IndexOf` from the start reports the first place `pat` occurs. */
  lemma {:induction false} IndexOfIs(s: string, pat: string, from: nat, i: nat)
    requires from <= i && HasAt(s, i, pat)
    requires forall k :: from <= k < i ==> !HasAt(s, k, pat)
    ensures IndexOf(s, pat, from) == Some(i)
    decreases i - from
  {
    if from < i {
      assert !HasAt(s, from, pat);
      IndexOfIs(s, pat, from + 1, i);
    }
  }

  /** On the first pass (`lastIndex` 0) the text of the match occurs first
      where the match is, so `html.replace(match[0], …)` splices at the
      match itself. */
  lemma FirstMatchIsFirstOccurrence(s: string, d: Directive)
    requires Exec(s, 0) == Some(d)
    ensures IndexOf(s, s[d.start..d.end], 0) == Some(d.start)
  {
    var m := s[d.start..d.end];
    assert forall k :: 0 <= k < d.start ==> !HasAt(s, k, m) by {
      ExecIsMatch(s, 0);
      ExecFirst(s, 0);
      forall k | 0 <= k < d.start ensures !HasAt(s, k, m) {
        CopyIsDirective(s, d, k);
      }
    }
    IndexOfIs(s, m, 0, d.start);
  }

  /** The comment for a missing target holds no `$` of its own. */
  lemma NotFoundPlain(path: string)
    requires '$' !in path
    ensures '$' !in NotFound(path)
  {
    assert NotFound(path) == "<!-- include not found: " + path + " -->";
  }

  /** The first directive of a page whose target is absent is replaced, in
      place, by the "not found" comment for its cleaned path, and scanning
      goes on from the end of the old match. */
  lemma FirstMissingTarget(fs: FileSystem, html: string, baseDir: string, fuel: nat, d: Directive)
    requires Exec(html, 0) == Some(d) && fuel > 0
    requires Resolve(baseDir, IncludePath(html, d)) !in fs
    requires '$' !in IncludePath(html, d)
    ensures Scan(fs, html, baseDir, 0, fuel)
         == Scan(fs, html[..d.start] + NotFound(IncludePath(html, d)) + html[d.end..],
                 baseDir, d.end, Spend(fuel))
  {
    NotFoundPlain(IncludePath(html, d));
    FirstMatchIsFirstOccurrence(html, d);
    FirstSplice(html, d.start, d.end, NotFound(IncludePath(html, d)));
    ScanMissingTarget(fs, html, baseDir, 0, fuel, d);
  }

  /** A replacement text without `$` goes over the first occurrence of
      `s[i..j]` when that is at `i`. */
  lemma FirstSplice(s: string, i: nat, j: nat, rep: string)
    requires i <= j <= |s| && IndexOf(s, s[i..j], 0) == Some(i) && '$' !in rep
    ensures ReplaceFirst(s, s[i..j], rep) == s[..i] + rep + s[j..]
  {
    ReplaceFirstPlain(s, s[i..j], rep, i);
  }

  /** The first directive of a page whose target is a file is replaced, in
      place, by that file's own resolved text. */
  lemma FirstPresentTarget(fs: FileSystem, html: string, baseDir: string, fuel: nat,
                           d: Directive, frag: string)
    requires Exec(html, 0) == Some(d) && fuel > 0
    requires var full := Resolve(baseDir, IncludePath(html, d));
      full in fs && fs[full].File?
      && Scan(fs, fs[full].text, Dirname(full), 0, Spend(fuel)) == Resolved(frag)
    requires '$' !in frag
    ensures Scan(fs, html, baseDir, 0, fuel)
         == Scan(fs, html[..d.start] + frag + html[d.end..], baseDir, d.end, Spend(fuel))
  {
    FirstMatchIsFirstOccurrence(html, d);
    FirstSplice(html, d.start, d.end, frag);
    ScanPresentTarget(fs, html, baseDir, 0, fuel, d, frag);
  }

  /** Fuel only bounds the work: once a run finishes, more fuel gives the
      same outcome. */
  lemma {:induction false} ScanFuelMonotone(fs: FileSystem, html: string, baseDir: string,
                                            lastIndex: nat, f: nat, g: nat)
    requires f <= g && Scan(fs, html, baseDir, lastIndex, f) != Failed(OutOfFuel)
    ensures Scan(fs, html, baseDir, lastIndex, g) == Scan(fs, html, baseDir, lastIndex, f)
    decreases f
  {
    match Exec(html, lastIndex)
    case None =>
    case Some(d) =>
      var target := IncludePath(html, d);
      var full := Resolve(baseDir, target);
      var directive := html[d.start..d.end];
      if full !in fs {
        ScanFuelMonotone(fs, ReplaceFirst(html, directive, NotFound(target)), baseDir, d.end,
                         Spend(f), Spend(g));
      } else if fs[full].File? {
        var text := fs[full].text;
        var inner := Scan(fs, text, Dirname(full), 0, Spend(f));
        if inner != Failed(OutOfFuel) {
          ScanFuelMonotone(fs, text, Dirname(full), 0, Spend(f), Spend(g));
          if inner.Resolved? {
            ScanFuelMonotone(fs, ReplaceFirst(html, directive, inner.html), baseDir, d.end,
                             Spend(f), Spend(g));
          }
        }
      }
  }
}
