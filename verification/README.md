# Static-site build scripts, modelled in Dafny

This project models the text-processing core of four Node build scripts of a
static-site starter:

- `scripts/build.mjs` is the site build. The model covers:
  - the project name and base path;
  - the `@include` directive resolver;
  - the `<img data-picture="auto">` to `<picture>` rewrite and its URL builder `makePath`;
  - `escapeHtml`;
  - the `index.html` link normaliser;
  - the sitemap writer.
- `scripts/images.mjs` is the image-derivative generator. The model covers the names of the
  twelve files it writes per source image: four widths, each in the source
  format, WebP and AVIF.
- `scripts/backup.mjs` is the backup copier. The model covers:
  - the sanitised project name;
  - the time-stamped copy name;
  - the pruning step that keeps the five newest copies in the cloud folder.
- `scripts/release.mjs` is the release packer. The model covers:
  - the release name, version and time stamp that make up the zip name;
  - the list of `-x` exclusion arguments.

The world outside the scripts is passed in as values:

- The file system the include resolver reads is a `map` from absolute paths to
  files or directories (`Includes.FileSystem`).
- A `fast-glob` walk is the sequence of relative paths it lists. Its order is
  an input, and a pattern is a predicate (`Glob.Select`).
- The clock is the ISO-8601 text of `Date.prototype.toISOString`, built from
  its pieces by `IsoDate.Iso`.
- A file's `mtimeMs` (a double in Node) stands in as an integer. The sort's
  comparator `b.time - a.time` uses only the order of the times, and an
  integer keeps that order.
- `package.json`'s `name` and `version` are `Option<string>`.
- The work of `resolveIncludes` (an include that includes itself never
  ends in the script) is bounded by a `fuel` argument. One unit is spent on
  each directive handled, at any depth. Running out of fuel is the outcome
  `Failed(OutOfFuel)`.

The backup folder is the one piece of state the scripts change in place.
`Backup.Folder` holds it as a map from file name to modification time, and
`Folder.Prune` deletes entries from it one at a time.

The main results:

- **Include resolution.**
  - `Includes.ResolveIncludes` (a `while` loop with recursion, as in the
    script) computes `Includes.Scan`.
  - The scan finds the earliest directive at or after the regex's `lastIndex`.
  - A missing target becomes a `<!-- include not found: … -->` comment.
  - A present target is resolved recursively and spliced in.
  - Text without a directive comes back unchanged.
  - Two defects of the script are proved and corrected; see "Findings".
- **Picture rewrite.**
  - The scanner for the tag regex is sound and complete. It finds the first
    tag, takes the lazy quantifiers, and leaves text without a tag unchanged.
  - The `<picture>` markup holds exactly nine URLs: four AVIF, four WebP and
    one fallback at 1200 px.
  - Each of the nine URLs is the public path of a file the derivative
    generator writes for that source image (`NamingContract.PictureUrlsAreWritten`).
  - A non-empty base only prefixes every URL, in each `<picture>` and so on
    the whole page (`PictureFacts.BaseOnlyPrefixesPage`).
  - The alt text is the capture of the first `alt` attribute, or empty.
- **Escaping.** `escapeHtml` is a per-character escape, leaves no `<`, `>`,
  `"` or `'`, and is undone by unescaping the five entities.
- **Links.**
  - `/index.html` followed by `#` or a word boundary becomes `/`, and never
    otherwise.
  - The rewrite is idempotent, and works piece by piece across every `/`.
  - The anchor pass is the identity.
- **Sitemap.**
  - Only visible, non-partial, non-404 `.html` files are pages, in the
    order of the walk.
  - The page to location mapping is correct, except that a name that only
    ends in `index.html` shares its location with a directory; see "Findings".
  - Reading the written XML back gives exactly the pages' locations with the
    date part of the clock.
- **Derivatives.**
  - `Derivatives.Generate` (the nested loops of `main`) emits, per source,
    the twelve outputs in the script's order.
  - These outputs are pairwise distinct for a raster source.
- **Backups.**
  - Only candidates (`backup_<name>_…zip`) are ever deleted.
  - At most five survive, and they are the five newest.
  - No deleted copy is newer than a kept one.
  - Sorting is stable, as `Array.prototype.sort` is.
- **Release.**
  - The zip name is `<name>-v<version>-<stamp>.zip`.
  - The exclusion arguments read back to exactly the twelve patterns.

## Model

| member | source | states |
|---|---|---|
| Naming.NameOrDefault | scripts/build.mjs:30 | an absent or empty `name` falls back to `project`, any other is kept |
| Naming.DashUnsafe | scripts/build.mjs:30 | each character outside `[a-zA-Z0-9-_]` becomes `-`, every other is kept, the length is unchanged |
| Naming.DropUnsafe | scripts/backup.mjs:12 | deleting the characters outside `[a-zA-Z0-9-_]` leaves a safe name no longer than the input |
| Naming.DropUnsafeOne | scripts/backup.mjs:12 | a single character is kept exactly when it is in `[a-zA-Z0-9-_]` |
| Naming.DropUnsafeAppend | scripts/backup.mjs:12 | deletion works character by character and keeps the order of what it keeps: it distributes over concatenation |
| Naming.DashUnsafeIsSafe | scripts/build.mjs:30 | the dash-sanitised name is safe, and equals the input exactly when the input was already safe |
| Naming.DropUnsafeKeepsSafe | scripts/backup.mjs:12 | deleting keeps a safe name and strictly shortens any other |
| Naming.BackupNameDiffers | scripts/backup.mjs:12 | the backup script's name and the build and release scripts' name agree exactly when the package name is already safe |
| Naming.ProjectName | scripts/build.mjs:29-30 | `PROJECT_NAME` is non-empty and safe, and equals a non-empty safe package name |
| Naming.ProjectBase | scripts/build.mjs:31 | `PROJECT_BASE` is `/` followed by a non-empty name with no further slash |
| Includes.DirectiveAtSound | scripts/build.mjs:156 | a match found at a position is a match of `/@include\s+(.+)\s*$/m` whose capture ends at a line end |
| Includes.DirectiveAtComplete | scripts/build.mjs:156 | wherever the regex has a match, the matcher at that position finds one |
| Includes.Exec | scripts/build.mjs:156-158 | `exec` from `lastIndex` returns a match at or after `lastIndex`, with the capture strictly after the keyword |
| Includes.ExecFirst | scripts/build.mjs:158 | no directive starts between `lastIndex` and the match `exec` returns |
| Includes.ExecNone | scripts/build.mjs:158 | `exec` returns null exactly when no directive starts at or after `lastIndex` |
| Includes.IncludePath | scripts/build.mjs:159 | the include path has no quote characters and is no longer than the capture |
| Includes.IncludePathTrimmed | scripts/build.mjs:159 | a capture without quotes gives exactly its trimmed text as the include path |
| Text.TrimStart | scripts/build.mjs:159 | the result is a suffix of the input, does not start with white space, and everything cut off in front is white space |
| Text.TrimEnd | scripts/build.mjs:159 | the result is a prefix of the input, does not end with white space, and everything cut off behind is white space |
| Text.Remove | scripts/build.mjs:159 | no character of the deleted set is left, the text does not grow, and a text without such characters is unchanged |
| Text.RemoveOne | scripts/build.mjs:159 | a single character is deleted exactly when it is in the set |
| Text.RemoveAppend | scripts/build.mjs:159 | deletion keeps the order of what it keeps: it distributes over concatenation |
| Includes.IndexOfFirst | scripts/build.mjs:162 | `indexOf` finds the first occurrence of the pattern text |
| Includes.ResolveIncludes | scripts/build.mjs:155-170 | the loop-and-recursion method returns exactly the scan's outcome for the page, from `lastIndex` 0 |
| IncludeFacts.ExecFindsEarliest | scripts/build.mjs:156-158 | if the page has any directive, `exec` from 0 finds one no later than it |
| IncludeFacts.NoDirectiveUnchanged | scripts/build.mjs:156-169 | a page without any directive is returned unchanged |
| IncludeFacts.FirstMatchIsFirstOccurrence | scripts/build.mjs:162 | the first match's text occurs first at the match itself, so `replace` rewrites the matched directive |
| IncludeFacts.FirstMissingTarget | scripts/build.mjs:159-164 | a missing first target is spliced out in place of the first directive itself, given no `$` in the path |
| IncludeFacts.FirstPresentTarget | scripts/build.mjs:165-167 | a present first target's resolved text is spliced in place of the first directive itself, given no `$` in it |
| IncludeFacts.ScanFuelMonotone | scripts/build.mjs:155-170 | more fuel does not change an outcome reached without running out of fuel |
| IncludesFixed.StaleLastIndexSkipsDirective | scripts/build.mjs:158-167 | with an empty first include, a page of two directives is resolved with the second directive still in it |
| IncludesFixed.DollarPatternRewritesFragment | scripts/build.mjs:162-167 | a replacement text holding `$&` inserts the matched directive instead of the literal text |
| IncludesFixed.Splice | scripts/build.mjs:162-167 | the literal splice has the expected length |
| IncludesFixed.SpliceAgreesWithoutDollar | scripts/build.mjs:162-167 | without `$`, `replace` of the matched text is the literal splice at the match |
| IncludesFixed.ResolveAllComplete | scripts/build.mjs:155-170 | the corrected resolver's finished output holds no directive at all |
| IncludesFixed.ResolveAllReachesSecondDirective | scripts/build.mjs:155-170 | on the page the script leaves unresolved, the corrected resolver resolves both directives |
| IncludesFixed.EmptyFileResolves | scripts/build.mjs:155-170 | the empty page resolves to itself in both resolvers |
| Pictures.ImgAt | scripts/build.mjs:175 | a tag match at a position starts there and has `src` strictly inside it |
| Pictures.FindImg | scripts/build.mjs:175-176 | the global search returns a match at or after the search position |
| PictureFacts.ImgAtSound | scripts/build.mjs:175 | a match found has the regex's shape: `<img`, attributes, `data-picture="auto"`, whitespace, a quoted `src`, the rest up to `>` |
| PictureFacts.ImgAtComplete | scripts/build.mjs:175 | wherever the regex shape occurs, a match is found, with the shortest lazy groups |
| PictureFacts.FindImgFirst | scripts/build.mjs:175-176 | no tag starts between the search position and the match found |
| PictureFacts.FindImgShape | scripts/build.mjs:175-176 | the match the search finds has the regex's shape |
| PictureFacts.NoShapeUnchanged | scripts/build.mjs:174-176 | a page without any such tag is returned unchanged |
| Pictures.SourceExt | scripts/build.mjs:180 | a missing extension defaults to `jpg`, and the leading dot is dropped |
| Pictures.FallbackFormat | scripts/build.mjs:181 | the fallback is a case-insensitive `jpg`, `jpeg` or `png`: the source's own when it is one, else `jpg` |
| Pictures.CleanDir | scripts/build.mjs:179 | cleaning the directory never lengthens it |
| Pictures.Describe | scripts/build.mjs:177-186 | `loading` and `decoding` are added exactly when absent; the name is `path.parse`'s and the directory its cleaned `dir`; the fallback is `jpg` without an extension; without any `alt` match the alt text is empty |
| Pictures.FindAlt | scripts/build.mjs:183 | an `alt` found lies at or after the search position and is a match |
| PictureFacts.AltAtSound | scripts/build.mjs:183-184 | the captured `alt` text contains no quote |
| PictureFacts.AltAtComplete | scripts/build.mjs:183 | after a non-word character, `alt` in any case, `=`, a quote, quote-free text and a quote is a match capturing that text |
| PictureFacts.DescribeAlt | scripts/build.mjs:183-184 | the alt text is the capture of the first match in the tag |
| PictureFacts.AltInTag | scripts/build.mjs:183-184 | a tag whose first `alt` attribute is ` alt="a"` gets `a` as its alt text |
| Pictures.Template | scripts/build.mjs:195-200 | the markup has 27 pieces, opening with `<picture>` and closing with the fallback `<img>`'s attributes |
| Pictures.FallbackAttributes | scripts/build.mjs:199 | the fallback `<img>`'s attributes end the tag with `>` |
| PictureFacts.TemplateUrls | scripts/build.mjs:197-199 | the URLs of the markup are the four widths in AVIF, the four in WebP, then width 1200 in the fallback format |
| PictureFacts.FallbackUrls | scripts/build.mjs:199 | the fallback `<img>` holds exactly one URL, at width 1200 |
| PictureFacts.SrcsetIsJoin | scripts/build.mjs:197-198 | a `srcset` is the `, `-join of `makePath(w, fmt) + " " + w + "w"` over the widths |
| PictureFacts.MakePathBase | scripts/build.mjs:189-193 | with a base, `makePath` is the base followed by the unprefixed path |
| PictureFacts.BaseOnlyPrefixesUrls | scripts/build.mjs:189-199 | the markup with a base is the markup without one in which each URL is prefixed by the base |
| PictureFacts.BaseOnlyPrefixesPage | scripts/build.mjs:174-204 | on a whole page, a non-empty base leaves the tags and the text around them where they are and only prefixes every URL of each `<picture>` |
| PictureFacts.PictureIsTemplate | scripts/build.mjs:195-200 | `.trim()` removes exactly the leading line break of the template literal |
| NamingContract.MakePathIsOutPath | scripts/build.mjs:189-193 | `makePath` is `/assets/img/` followed by the generator's output path for that name, width and format |
| NamingContract.CleanImgDir | scripts/build.mjs:179 | a `src` under `img/` loses exactly that prefix |
| NamingContract.RasterFallback | scripts/build.mjs:180-181 | a `.jpg`, `.jpeg` or `.png` source is its own fallback format |
| NamingContract.DescribeSource | scripts/build.mjs:177-181 | for a raster `src` under `img/`, the described directory, name and fallback are the source file's |
| NamingContract.PictureUrlsAreWritten | scripts/build.mjs:189-199 | each of the nine URLs in the markup for a raster image is the public path of one of the twelve files the generator writes for it |
| NamingContract.PictureUrlsMatch | scripts/images.mjs:31-47 | the same correspondence, for any parsed source whose directory, name and extension agree with the tag's |
| NamingContract.SourceIsSelected | scripts/images.mjs:28 | a visible `.jpg`, `.jpeg` or `.png` file is selected by the generator's pattern |
| Derivatives.Sources | scripts/images.mjs:28 | the sources are exactly the listed files the pattern selects |
| Derivatives.SourcesInOrder | scripts/images.mjs:28 | the sources keep the order of the walk: each listed file is in place between the sources before it and those after it exactly when the pattern selects it |
| Derivatives.Derived | scripts/images.mjs:39-47 | a derivative name starts with the source's name and ends with its extension |
| Derivatives.OutPath | scripts/images.mjs:32-39 | an output path ends with the file's name |
| Derivatives.AllOf | scripts/images.mjs:29-49 | every source yields twelve outputs |
| Derivatives.Generate | scripts/images.mjs:28-49 | the generator writes exactly the specified outputs for the selected files |
| Derivatives.EmitAll | scripts/images.mjs:29-49 | the loop over sources appends each source's outputs in order |
| Derivatives.EmitSource | scripts/images.mjs:35-48 | the loop over widths appends exactly that source's outputs |
| Derivatives.ForSourceLayout | scripts/images.mjs:35-47 | output `3i+j` is width `i` of 480, 768, 1200 and 1920, in the source format, WebP or AVIF for `j` 0, 1 or 2 |
| Derivatives.DerivedInjective | scripts/images.mjs:39-47 | a derivative name determines its width and extension |
| Derivatives.ForSourceDistinct | scripts/images.mjs:35-47 | the twelve outputs of a source that is not WebP or AVIF are pairwise distinct |
| Derivatives.RasterParse | scripts/images.mjs:31 | `path.parse` of a selected file gives its raster extension |
| Derivatives.SourceExtension | scripts/images.mjs:28-31 | every selected file has a `.jpg`, `.jpeg` or `.png` extension |
| Derivatives.SourceOutputsDistinct | scripts/images.mjs:35-47 | the twelve outputs of every selected file are pairwise distinct |
| Derivatives.SameStemSharesModernFormats | scripts/images.mjs:43-47 | two sources with the same directory and name write the same WebP and AVIF files |
| Derivatives.AllOfMembers | scripts/images.mjs:28-49 | an output is written exactly when it is one of some source's outputs |
| Escaping.EscapeEach | scripts/build.mjs:240 | the per-character escape leaves no `<`, `>`, `"` or `'` |
| Escaping.EscapeHtmlPerChar | scripts/build.mjs:240 | the chain of five global replacements equals the per-character escape |
| Escaping.EscapeHtmlSafe | scripts/build.mjs:240 | the escaped text holds no `<`, `>`, `"` or `'` |
| Escaping.EscapeHtmlIdentity | scripts/build.mjs:240 | text without special characters is unchanged |
| Escaping.UnescapeEscapeHtml | scripts/build.mjs:240 | decoding the five entities recovers the original text |
| Links.IndexLinkAt | scripts/build.mjs:209 | a match of `/index.html` followed by `#` or a word boundary starts with `/` and spans 11 or 12 characters |
| Links.NormalizeLinksIsRewrite | scripts/build.mjs:208-210 | `normalizeLinks` is the index rewrite, because the anchor pass changes nothing |
| Links.KeepAnchorsIdentity | scripts/build.mjs:210 | replacing `href="#…"` by itself is the identity |
| Links.RewriteMatchFree | scripts/build.mjs:209 | after the rewrite no `/index.html` link is left |
| Links.RewriteIdentity | scripts/build.mjs:209 | text without an `/index.html` link is unchanged |
| Links.NormalizeLinksIdempotent | scripts/build.mjs:208-210 | normalising twice is normalising once |
| Links.NormalizeLinksKeepsPlain | scripts/build.mjs:208-210 | a page without an index link is unchanged |
| Links.OnlyMatchRewritten | scripts/build.mjs:209 | a single index link is replaced by `/` and all else is kept |
| Links.DirectoryIndexLink | scripts/build.mjs:207-209 | `dir/index.html` before `#`, a non-word character or the end becomes `dir/`, whatever `dir` and the rest of the page hold |
| Links.IndexWordContinued | scripts/build.mjs:209 | `dir/index.html` followed by a word character is left alone, whatever `dir` and the rest of the page hold |
| Links.NormalizeLinksSplit | scripts/build.mjs:208-210 | the normaliser works piece by piece across every `/`: normalising a page is normalising the text before a `/` and the text from it on |
| Links.DirectoryLinkInPage | scripts/build.mjs:207-209 | a `dir/` link between texts without index links is left as it is |
| Sitemap.Pages | scripts/build.mjs:214 | the pages are exactly the listed files that are pages |
| Sitemap.PagesInOrder | scripts/build.mjs:214 | the pages keep the order of the walk: each listed file is in place between the pages before it and those after it exactly when it is a page |
| Sitemap.PartialsAreNotPages | scripts/build.mjs:214 | nothing under `partials/` is a page |
| Sitemap.NotFoundIsNotAPage | scripts/build.mjs:214 | no `404.html`, in any directory, is a page |
| Sitemap.VisiblePage | scripts/build.mjs:214 | any other visible `.html` file is a page |
| Sitemap.Loc | scripts/build.mjs:218-220 | a location starts and ends with `/` |
| Sitemap.LocRoot | scripts/build.mjs:218-220 | `index.html` is the root `/` |
| Sitemap.LocIndexPage | scripts/build.mjs:217-220 | `foo/index.html` is `/foo/` |
| Sitemap.LocPlain | scripts/build.mjs:218-220 | any other page `p` is `/p/`, extension kept |
| Sitemap.LocNameEndingInIndex | scripts/build.mjs:218 | `fooindex.html` maps to the same location as `foo/index.html` |
| Sitemap.StripIndexFile | scripts/build.mjs:217-218 | the corrected strip changes a path exactly when it is `index.html` or ends in `/index.html` |
| Sitemap.LocFixed | scripts/build.mjs:217-220 | a corrected location starts and ends with `/` |
| Sitemap.LocFixedAgrees | scripts/build.mjs:217-220 | the corrected location equals the written one for every path except a name ending in `index.html` that is not an index file |
| Sitemap.LocFixedKeepsName | scripts/build.mjs:217-220 | with the correction, `fooindex.html` is `/fooindex.html/`, apart from `foo/index.html` at `/foo/` |
| Sitemap.Href | scripts/build.mjs:221 | an href ends with the page's location |
| Sitemap.BaseOnlyPrefixes | scripts/build.mjs:221 | with the base, an href is the base followed by the href without it |
| Sitemap.Lastmod | scripts/build.mjs:215 | `lastmod` is a prefix of the clock text without `T` |
| Sitemap.LastmodOfIso | scripts/build.mjs:215 | `lastmod` is the `YYYY-MM-DD` date of the clock |
| Sitemap.SitemapRoundTrip | scripts/build.mjs:222-228 | reading the XML back gives one `<url>` per location, in order, each with the `lastmod` |
| Sitemap.BuildSitemapLists | scripts/build.mjs:213-231 | the written sitemap lists exactly the pages, in order, each with its href and the date |
| Glob.Select | scripts/build.mjs:214 | the selected paths are exactly the listed paths the pattern accepts |
| Glob.SelectOne | scripts/build.mjs:214 | a single path is selected exactly when the pattern accepts it |
| Glob.SelectAppend | scripts/build.mjs:214 | selection keeps the walk's order: selecting from two listings in turn is joining the two selections |
| Glob.BaseNameAfterSlash | scripts/build.mjs:214 | the base name of a path is the part after its last directory |
| Backup.BackupProjectName | scripts/backup.mjs:12 | the backup name is safe, and equals a non-empty safe package name (what deletion keeps of any other name: `Naming.DropUnsafeOne`, `Naming.DropUnsafeAppend`) |
| Backup.DateStampOfIso | scripts/backup.mjs:43 | the copy's stamp is `YYYY-MM-DD-HH-MM-SS` |
| Backup.CopyIsCandidate | scripts/backup.mjs:44-49 | the copy just written is one of the candidates for pruning |
| Backup.Candidates | scripts/backup.mjs:48-50 | every candidate is a listed `backup_<name>_…zip` file with its own modification time |
| Backup.CandidatesComplete | scripts/backup.mjs:48-50 | every listed candidate file is among the candidates |
| Backup.CandidateNames | scripts/backup.mjs:48-50 | a name is a candidate's exactly when it is listed and matches the prefix and suffix |
| Backup.Insert | scripts/backup.mjs:51 | inserting adds exactly one entry |
| Backup.InsertNewestFirst | scripts/backup.mjs:51 | inserting keeps the order newest first |
| Backup.SortNewestFirst | scripts/backup.mjs:51 | the sort is a permutation ordered newest first |
| Backup.SortStable | scripts/backup.mjs:51 | entries with equal times keep their listing order |
| Backup.Folder.Prune | scripts/backup.mjs:48-57 | the folder afterwards is the folder before minus the doomed copies |
| Backup.DoomedAreCandidates | scripts/backup.mjs:48-55 | only listed candidates are deleted |
| Backup.NonCandidatesKept | scripts/backup.mjs:49-55 | a file that is not a candidate is never deleted |
| Backup.KeepsFiveNewest | scripts/backup.mjs:53-56 | with at most five candidates nothing is deleted; otherwise exactly the five first-ranked survive |
| Backup.DeletedNotNewer | scripts/backup.mjs:51-55 | no deleted copy is newer than a kept one |
| Release.Version | scripts/release.mjs:20 | an absent or empty version falls back to `0.0.0`, any other is kept |
| Release.Slice | scripts/release.mjs:25-26 | `slice(a, b)` is the substring, clamped to the text's length: `s[a..b]`, `s[a..]` when the text ends before `b`, empty when it ends before `a` |
| Release.Stamp | scripts/release.mjs:22-25 | the stamp holds no `:` or `T` and has at most 15 characters |
| Release.StampOfIso | scripts/release.mjs:22-25 | the stamp is `YYYY-MM-DD`, hours, minutes and the tens of seconds, because dashes are kept |
| Release.PrettyStamp | scripts/release.mjs:26 | the pretty stamp is `stamp.slice(0, 8)`, a dash, then `stamp.slice(8, 12)`, at most 13 characters |
| Release.PrettyStampLength | scripts/release.mjs:26 | on a full clock text the pretty stamp has 13 characters |
| Release.PrettyStampOfIso | scripts/release.mjs:22-26 | the pretty stamp as written is `YYYY-MM--DDHH` |
| Release.ZipName | scripts/release.mjs:30 | the zip name is `<name>-v<version>-…zip` |
| Release.ZipNameOfIso | scripts/release.mjs:19-30 | the zip name as written is `<name>-v<version>-YYYY-MM--DDHH.zip` |
| Release.IntendedStamp | scripts/release.mjs:22-25 | the corrected stamp has no `:`, `T` or `-` and has at most 14 characters |
| Release.IntendedPrettyStampOfIso | scripts/release.mjs:22-26 | the corrected pretty stamp is `YYYYMMDD-HHMM`, as the comments promise |
| Release.ExcludeArgs | scripts/release.mjs:61 | each pattern becomes `-x "pattern"` |
| Release.ExcludeRoundTrip | scripts/release.mjs:48-61 | reading the joined arguments back gives the patterns, for patterns without `"` |
| Release.ExcludeReadsBack | scripts/release.mjs:48-61 | the twelve patterns read back exactly from the argument string |

## Left out

- File I/O, `execSync` (Tailwind, `zip`, PowerShell, `npm run build`), the HTML
  minifier, `esbuild` and the iCloud copy steps of `main()` in
  `scripts/build.mjs` are not modelled. They are external programs or plain
  copies, and the order in which `main()` runs the steps is out of scope.
- Image encoding by `sharp` is not modelled: resizing, quality settings and
  `withoutEnlargement`. Only the names of the files written are.
- The local zip name and path of `scripts/backup.mjs:14-21` and its `zip`
  command are not modelled. Only the cloud copy and the pruning are.
- The `quote` helper of `scripts/build.mjs:243-245` only feeds shell commands,
  and is not modelled.
- Environment variables, the home directory and command-line flags are not
  modelled, because they only choose directories.
- JavaScript strings are sequences of UTF-16 code units. The model uses
  Dafny `char`s, and case-insensitive matching is ASCII only.
- Regular expressions are not interpreted in general. Each pattern the
  scripts use has its own hand-written matcher, in which `\s` is
  JavaScript's whitespace set and `$` under the `m` flag matches before a line
  terminator.
- Includes.ResolveIncludes: a `fuel` bound replaces the unbounded recursion.
  Every pass of the loop spends one unit, at every level of nesting. So a page
  that handles more directives in all than the fuel allows ends in
  `Failed(OutOfFuel)`, even a flat page of many directives. The script would
  instead keep going, or exhaust the stack on a cycle. With enough fuel the
  outcome does not depend on the fuel (`IncludeFacts.ScanFuelMonotone`).
- Pictures.CleanDir: the contract states only that the directory does not
  grow. Its stripping of `./`, `src/img/` and `img/` is stated through
  `NamingContract.CleanImgDir` for directories under `img/`.
- Backup.Folder.Prune: the method requires only that every listed file has a
  modification time, which `statSync` supplies for a file `readdirSync` has
  just listed. That `readdirSync` lists each file once is a precondition of
  `Backup.KeepsFiveNewest` and the lemmas built on it, not of the method.
  Deletion failures are not modelled.
- Derivatives.Generate: the order of the `fast-glob` walk is an input, not
  derived from the directory tree.
- Sitemap.BuildSitemapLists: file names and the base are assumed free of `<`,
  so that the written XML can be read back. The script itself does not
  escape them.

## Findings

| source | as written | input that shows it | evidently intended | confidence | as-written member | corrected member |
|---|---|---|---|---|---|---|
| scripts/build.mjs:158-167 | `includeRegex.lastIndex` is kept after `html` is rewritten, so the next `exec` starts at the old match end in the new text | `@include a` (an empty file) then a line `@include b`: after the first splice the second directive starts before `lastIndex` and is never resolved | every directive in the page is resolved | not executed | IncludesFixed.StaleLastIndexSkipsDirective | IncludesFixed.ResolveAllComplete |
| scripts/build.mjs:162-167 | `html.replace(match[0], frag)` treats `$$`, `$&`, `` $` `` and `$'` in `frag` as replacement patterns | a fragment `x$&y` spliced for `@include a` gives `x@include ay` | the fragment is inserted literally | not executed | IncludesFixed.DollarPatternRewritesFragment | IncludesFixed.SpliceAgreesWithoutDollar |
| scripts/release.mjs:22-26 | `.replace(/[:T]/g, "")` keeps the dashes of the date, so `slice(0,8)` and `slice(8,12)` cut `YYYY-MM-` and `DDHH` | clock `2024-05-06T12:34:56.789Z` gives `2024-05--0612` | `YYYYMMDD-HHMM`, here `20240506-1234` | not executed | Release.PrettyStampOfIso | Release.IntendedPrettyStampOfIso |
| scripts/build.mjs:217-218 | `p.replace(/index\.html$/, "")` is not anchored at a `/`, so a file name that only ends in `index.html` loses that part | the page `myindex.html` gets the location `/my/`, which is also the location of `my/index.html` | only an index file is served as its directory (`foo/index.html -> foo/`), so `myindex.html` is `/myindex.html/` | not executed | Sitemap.LocNameEndingInIndex | Sitemap.LocFixedKeepsName |
