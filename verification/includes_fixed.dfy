/** Two ways in which `resolveIncludes` does not do what it is for, each
    shown on a family of concrete pages, and a corrected resolver that
    splices each fragment verbatim over its own directive and scans again
    from the start, so that a finished page holds no directive. */
module IncludesFixed {
  import opened Text
  import opened Paths
  import opened Includes
  import opened IncludeFacts

  /** A one-character file name the directive reads as it stands. */
  predicate PlainName(c: char) {
    !IsSpace(c) && c != '\'' && c != '"' && c != '/' && c != '.'
  }

  /** The example page: two directives on consecutive lines. */
  function TwoDirectives(a: char, b: char): (html: string)
    ensures |html| == 21 && html[10] == '\n'
  {
    Keyword + " " + [a] + "\n" + Keyword + " " + [b]
  }

  /** The page left after the first directive is replaced by nothing. */
  function SecondLine(b: char): (html: string)
    ensures |html| == 11 && html[0] == '\n'
  {
    "\n" + Keyword + " " + [b]
  }

  /** Where the first directive of the example page lies. */
  lemma ExampleFirstDirective(a: char, b: char)
    requires PlainName(a)
    ensures Exec(TwoDirectives(a, b), 0) == Some(Directive(0, 9, 10, 10))
  {
    var html := TwoDirectives(a, b);
    assert html[0..8] == Keyword;
    assert html[8] == ' ' && html[9] == a;
    assert SpaceRun(html, 9) == 0;
    assert SpaceRun(html, 8) == 1;
    assert PathStart(html, 8, 1) == Some(1);
    assert LineRun(html, 10) == 0;
    assert LineRun(html, 9) == 1;
    assert html[11] == '@' && !IsSpace('@');
    assert SpaceRun(html, 11) == 0;
    assert SpaceRun(html, 10) == 1;
    assert LastTerminator(html, 10, 11) == Some(10);
    assert DirectiveAt(html, 0) == Some(Directive(0, 9, 10, 10));
  }

  /** Where the directive of the page left over lies, and that scanning
      from past it finds nothing. */
  lemma ExampleSecondDirective(b: char)
    requires PlainName(b)
    ensures Exec(SecondLine(b), 0) == Some(Directive(1, 10, 11, 11))
    ensures Exec(SecondLine(b), 10) == None
  {
    var rest := SecondLine(b);
    assert rest[1..9] == Keyword;
    assert rest[9] == ' ' && rest[10] == b;
    assert SpaceRun(rest, 10) == 0;
    assert SpaceRun(rest, 9) == 1;
    assert PathStart(rest, 9, 1) == Some(1);
    assert LineRun(rest, 11) == 0;
    assert LineRun(rest, 10) == 1;
    assert SpaceRun(rest, 11) == 0;
    assert DirectiveAt(rest, 0) == None;
    assert DirectiveAt(rest, 1) == Some(Directive(1, 10, 11, 11));
    assert !HasAt(rest, 10, Keyword) && !HasAt(rest, 11, Keyword);
  }

  /** A text with no slash is a single piece. */
  lemma {:induction false} SplitPlain(s: string)
    requires '/' !in s
    ensures Split(s) == [s]
  {
    if s != [] {
      SplitPlain(s[1..]);
      assert [s[0]] + s[1..] == s;
    }
  }

  /** A one-character name resolves, from the root, to that name under the
      root, and its directory is the root. */
  lemma ResolveFromRoot(c: char)
    requires PlainName(c)
    ensures Resolve("/", [c]) == "/" + [c]
    ensures Dirname("/" + [c]) == "/"
  {
    var name := [c];
    SplitPlain(name);
    assert Split("/" + name) == [""] + Split(name) by {
      assert ("/" + name)[1..] == name;
    }
    assert Split("//" + name) == [""] + Split("/" + name) by {
      assert ("//" + name)[1..] == "/" + name;
    }
    assert "/" + "/" + name == "//" + name;
    assert !StartsWith(name, "/") by {
      assert name[..1] == [c];
    }
    assert Split("//" + name) == ["", "", name];
    assert Canon(["", "", name], []) == [name] by {
      assert ["", "", name][1..] == ["", name];
      assert ["", name][1..] == [name];
      assert IsPlainSegment(name);
      assert Canon([name], []) == Canon([], [name]);
    }
    assert Join([name], "/") == name;
    assert NormalizeAbs("//" + name) == "/" + name;
    var p := "/" + name;
    assert p[0] == '/' && p[1] == c;
    LastIndexOfIs(p, '/', 0, |p|, 0);
  }

  /** A character that is not white space is its own trimmed text. */
  lemma TrimOne(c: char)
    requires !IsSpace(c)
    ensures Trim([c]) == [c]
  {
    assert TrimStart([c]) == [c];
    assert TrimEnd([c]) == [c];
  }

  /** A one-character capture that is neither white space nor a quote is
      the include path as it stands. */
  lemma {:induction false} OneCharacterPath(s: string, d: Directive, c: char)
    requires d.start <= d.pathStart <= d.pathEnd <= |s|
    requires s[d.pathStart..d.pathEnd] == [c]
    requires PlainName(c)
    ensures IncludePath(s, d) == [c]
  {
    TrimOne(c);
    QuoteFreeOne(c);
  }

  /** A character that is not a quote survives quote removal. */
  lemma {:induction false} QuoteFreeOne(c: char)
    requires c != '\'' && c != '"'
    ensures Remove([c], {'\'', '"'}) == [c]
  {
    RemoveOne(c, {'\'', '"'});
  }

  /** The first pass over the example page finds the first directive and
      reads its path as the one-character name. */
  lemma ExampleFirstPath(a: char, b: char)
    requires PlainName(a)
    ensures Exec(TwoDirectives(a, b), 0) == Some(Directive(0, 9, 10, 10))
    ensures IncludePath(TwoDirectives(a, b), Directive(0, 9, 10, 10)) == [a]
  {
    ExampleFirstDirective(a, b);
    assert TwoDirectives(a, b)[9..10] == [a];
    OneCharacterPath(TwoDirectives(a, b), Directive(0, 9, 10, 10), a);
  }

  /** The same for the directive of the page left over. */
  lemma ExampleSecondPath(b: char)
    requires PlainName(b)
    ensures Exec(SecondLine(b), 0) == Some(Directive(1, 10, 11, 11))
    ensures Exec(SecondLine(b), 10) == None
    ensures IncludePath(SecondLine(b), Directive(1, 10, 11, 11)) == [b]
  {
    ExampleSecondDirective(b);
    assert SecondLine(b)[10..11] == [b];
    OneCharacterPath(SecondLine(b), Directive(1, 10, 11, 11), b);
  }

  /** Nothing is found in an empty file. */
  lemma EmptyFileResolves(fs: FileSystem, fuel: nat)
    ensures Scan(fs, "", "/", 0, fuel) == Resolved("")
    ensures ResolveAll(fs, "", "/", fuel) == Resolved("")
  {
    assert Exec("", 0) == None;
  }

  /** The regular expression keeps its `lastIndex` while the page shrinks
      under it: after the first directive is replaced by an empty file,
      scanning resumes past the second directive, which is left in the
      page as it was. */
  lemma StaleLastIndexSkipsDirective(a: char, b: char)
    requires PlainName(a) && PlainName(b)
    ensures Scan(map["/" + [a] := File("")], TwoDirectives(a, b), "/", 0, 2) == Resolved(SecondLine(b))
    ensures Exec(SecondLine(b), 0).Some?
  {
    var fs := map["/" + [a] := File("")];
    var html := TwoDirectives(a, b);
    var d := Directive(0, 9, 10, 10);
    ExampleFirstPath(a, b);
    ResolveFromRoot(a);
    EmptyFileResolves(fs, Spend(2));
    FirstLineDropped(a, b);
    FirstPresentTarget(fs, html, "/", 2, d, "");
    ExampleSecondPath(b);
  }

  /** `String.prototype.replace` reads `$&` in a fragment as "the matched
      text": a fragment `x$&y` puts the directive itself back into the
      page instead of the characters `$&`. */
  lemma DollarPatternRewritesFragment()
    ensures ReplaceFirst("@include a", "@include a", "x$&y") == "x@include ay"
  {
    assert IndexOf("@include a", "@include a", 0) == Some(0);
    assert Expand("x$&y", "@include a", 0, "@include a") == "x@include ay";
  }

  /** A fragment put over the directive at its own position, character for
      character. */
  function Splice(html: string, d: Directive, rep: string): (r: string)
    requires d.start <= d.end <= |html|
    ensures |r| == |html| - (d.end - d.start) + |rep|
  {
    html[..d.start] + rep + html[d.end..]
  }

  /** Where the source's splice is right (the first pass, a fragment with
      no `$`), it agrees with the corrected one. */
  lemma SpliceAgreesWithoutDollar(html: string, d: Directive, rep: string)
    requires Exec(html, 0) == Some(d)
    requires '$' !in rep
    ensures Splice(html, d, rep) == ReplaceFirst(html, html[d.start..d.end], rep)
  {
    FirstMatchIsFirstOccurrence(html, d);
    FirstSplice(html, d.start, d.end, rep);
  }

  /** The corrected resolver: each pass looks for a directive from the
      start of the current text, and a present target's resolved text or
      the "not found" comment is spliced verbatim. */
  function ResolveAll(fs: FileSystem, html: string, baseDir: string, fuel: nat): Outcome
    decreases fuel
  {
    match Exec(html, 0)
    case None => Resolved(html)
    case Some(d) =>
      if fuel == 0 then Failed(OutOfFuel)
      else
        var target := IncludePath(html, d);
        var full := Resolve(baseDir, target);
        if full !in fs then
          ResolveAll(fs, Splice(html, d, NotFound(target)), baseDir, Spend(fuel))
        else match fs[full]
          case Directory => Failed(ReadDirectory(full))
          case File(text) =>
            match ResolveAll(fs, text, Dirname(full), Spend(fuel))
            case Failed(err) => Failed(err)
            case Resolved(frag) => ResolveAll(fs, Splice(html, d, frag), baseDir, Spend(fuel))
  }

  /** A resolved page holds no directive at all. */
  ghost predicate Finished(r: Outcome) {
    r.Resolved? ==> forall p, q, r', e :: !IsDirectiveMatch(r.html, p, q, r', e)
  }

  /** A page the corrected resolver finishes holds no directive at all. */
  lemma {:induction false} ResolveAllComplete(fs: FileSystem, html: string, baseDir: string, fuel: nat)
    ensures var r := ResolveAll(fs, html, baseDir, fuel);
      r.Resolved? ==> forall p, q, r', e :: !IsDirectiveMatch(r.html, p, q, r', e)
    decreases fuel
  {
    match Exec(html, 0)
    case None =>
      NoExecNoDirective(html);
    case Some(d) =>
      var target := IncludePath(html, d);
      var full := Resolve(baseDir, target);
      if fuel > 0 && full !in fs {
        ResolveAllComplete(fs, Splice(html, d, NotFound(target)), baseDir, Spend(fuel));
        CompleteMissing(fs, html, baseDir, fuel, d);
      } else if fuel > 0 && fs[full].File?
                && ResolveAll(fs, fs[full].text, Dirname(full), Spend(fuel)).Resolved? {
        var inner := ResolveAll(fs, fs[full].text, Dirname(full), Spend(fuel));
        ResolveAllComplete(fs, Splice(html, d, inner.html), baseDir, Spend(fuel));
        CompletePresent(fs, html, baseDir, fuel, d);
      } else {
        CompleteFailed(fs, html, baseDir, fuel, d);
      }
  }

  /** The step over a missing target. */
  lemma CompleteMissing(fs: FileSystem, html: string, baseDir: string, fuel: nat, d: Directive)
    requires Exec(html, 0) == Some(d) && fuel > 0
    requires Resolve(baseDir, IncludePath(html, d)) !in fs
    requires Finished(ResolveAll(fs, Splice(html, d, NotFound(IncludePath(html, d))), baseDir, Spend(fuel)))
    ensures Finished(ResolveAll(fs, html, baseDir, fuel))
  {
  }

  /** The step over a present file whose own text resolves. */
  lemma CompletePresent(fs: FileSystem, html: string, baseDir: string, fuel: nat, d: Directive)
    requires Exec(html, 0) == Some(d) && fuel > 0
    requires var full := Resolve(baseDir, IncludePath(html, d));
      && full in fs && fs[full].File?
      && var inner := ResolveAll(fs, fs[full].text, Dirname(full), Spend(fuel));
      && inner.Resolved?
      && Finished(ResolveAll(fs, Splice(html, d, inner.html), baseDir, Spend(fuel)))
    ensures Finished(ResolveAll(fs, html, baseDir, fuel))
  {
  }

  /** Every other step fails. */
  lemma CompleteFailed(fs: FileSystem, html: string, baseDir: string, fuel: nat, d: Directive)
    requires Exec(html, 0) == Some(d)
    requires var full := Resolve(baseDir, IncludePath(html, d));
      || fuel == 0
      || (full in fs && fs[full].Directory?)
      || (full in fs && ResolveAll(fs, fs[full].text, Dirname(full), Spend(fuel)).Failed?)
    ensures ResolveAll(fs, html, baseDir, fuel).Failed?
  {
  }

  /** Putting nothing over the first directive leaves the second line. */
  lemma FirstLineDropped(a: char, b: char)
    ensures var html := TwoDirectives(a, b);
      && html[..0] + "" + html[10..] == SecondLine(b)
      && Splice(html, Directive(0, 9, 10, 10), "") == SecondLine(b)
  {
    assert TwoDirectives(a, b)[10..] == SecondLine(b);
  }

  lemma SecondLineEnds(b: char)
    ensures SecondLine(b)[..1] == "\n" && SecondLine(b)[11..] == []
  {
  }

  /** The "not found" comment for a one-character name holds no directive:
      its only possible `@` is the name, and a space follows it. */
  lemma CommentHasNoDirective(b: char)
    ensures Exec("\n" + NotFound([b]), 0) == None
  {
    var last := "\n" + NotFound([b]);
    var pre := "\n<!-- include not found: ";
    assert last == pre + [b] + " -->";
    NoAtSign(pre);
    ExecNone(last, 0);
    forall p | 0 <= p <= |last| ensures DirectiveAt(last, p).None? {
      if p + |Keyword| <= |last| {
        assert last[p] == pre[p];
        assert last[p..p + |Keyword|][0] == last[p];
      }
    }
  }

  lemma NoAtSign(pre: string)
    requires pre == "\n<!-- include not found: "
    ensures forall k :: 0 <= k < |pre| ==> pre[k] != '@'
  {
  }

  /** On the page that defeats the source, the corrected resolver reaches
      the second directive too. */
  lemma ResolveAllReachesSecondDirective(a: char, b: char)
    requires PlainName(a) && PlainName(b) && a != b
    ensures ResolveAll(map["/" + [a] := File("")], TwoDirectives(a, b), "/", 3)
         == Resolved("\n" + NotFound([b]))
  {
    FixedFirstPass(a, b);
    FixedSecondPass(a, b);
    CommentHasNoDirective(b);
  }

  /** The first pass puts nothing over the first directive. */
  lemma FixedFirstPass(a: char, b: char)
    requires PlainName(a)
    ensures var fs := map["/" + [a] := File("")];
      ResolveAll(fs, TwoDirectives(a, b), "/", 3) == ResolveAll(fs, SecondLine(b), "/", 2)
  {
    var fs := map["/" + [a] := File("")];
    ExampleFirstPath(a, b);
    ResolveFromRoot(a);
    EmptyFileResolves(fs, Spend(3));
    FirstLineDropped(a, b);
  }

  /** The second pass, starting again from the front, finds the second
      directive and puts the "not found" comment over it. */
  lemma FixedSecondPass(a: char, b: char)
    requires PlainName(b) && a != b
    ensures var fs := map["/" + [a] := File("")];
      ResolveAll(fs, SecondLine(b), "/", 2) == ResolveAll(fs, "\n" + NotFound([b]), "/", 1)
  {
    var rest := SecondLine(b);
    ExampleSecondPath(b);
    ResolveFromRoot(b);
    assert Splice(rest, Directive(1, 10, 11, 11), NotFound([b])) == "\n" + NotFound([b]) by {
      SecondLineEnds(b);
    }
  }
}
