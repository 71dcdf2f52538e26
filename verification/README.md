# opencode-warcraft-notifications-plugin, modelled in Dafny

The repository holds a plugin for the OpenCode host and a few build scripts for its documentation site. The plugin logs a few lines when the host loads it and one or two lines for each event the host sends it. This project models the plugin and three of those scripts:

- **`pages/transform-docs.js`** copies the markdown documentation into the site framework's content directory. Every page gets a frontmatter block: when a page has none, a block is put in front of it. Its title comes from the first match of `^#\s+(.+)$` in multiline mode: a `#` at the start of a line, then a run of white space, which may run across line breaks, then the rest of the line where that run ends. The title is that rest of the line, or `Untitled` when there is no match. For example, `# \n# Real` gets the title `# Real`, and `# \n` gets `Untitled`. A `## Title` line on its own does not match. Some entries are skipped, and a few data files are copied as they are.
- **`pages/fix-links.js`** runs after a site build. It rewrites internal `href` values of the built HTML pages so that they start with the site's base path `/opencode-warcraft-notifications`. It writes back only the files whose links it changed and counts them.
- **`pages/test-links.js`** runs after that. It collects every internal `href` of every built page, maps each link to the file it should resolve to, and fails the build when one of those files is missing or a link lacks the base path.
- **`src/index.ts`** is the plugin itself. It logs three initialisation lines, then the type of each event received. For four event types it also logs a notice line.

## How the model is organised

- **Text and directories.**
  - JavaScript's string primitives and regular-expression character classes are written out in `text_util.dfy`.
  - `ordered_set.dfy` describes a JavaScript `Set` listed by `Array.from`.
  - A directory tree, as `readdir` with file types shows it, is a value of `FileTree.Entry` (`file_tree.dfy`). File I/O becomes reads of that value. It also becomes results that describe the new tree or the operations performed.
- **Regular expressions.** Each pattern of the scripts becomes a function that says where a match starts and where it ends. The leftmost-match search and the `exec` or `replace` loop become recursions over the text. For the `href` patterns, lemmas connect these functions to an independent description of an attribute value (`LinkChecker.MatchIsAttribute` and `LinkChecker.QuotedValueIsMatch` for the checker, `FixLinks.QuotedValueMatchAt` for the fixer).
- **The walks.** The scripts' recursive walks are methods with `for` loops over a listing, as in the scripts. Each walk is proved equal to a recursive function of the listing. Lemmas then say what that function contains, in terms of paths in the tree.
- **The two post-build scripts.** `FixLinks.FixTreePages` ties them together: after the fixer's walk, the checker reads the same pages at the same paths, each holding the text one replacement pass makes of it. `FixLinks.SecondWalkFixesNothing` says when a second run of the fixer finds nothing left to do. `FixLinks.RootAnchorKept` shows a link the fixer keeps and the checker still reports.
- **The plugin.** Console output is the sequence of lines written. The event hook is a function from the event type to those lines. It is checked against a table of the four notices.

## Model

| member | source | states |
|---|---|---|
| TextUtil.TrimStart | pages/transform-docs.js:36 | the result is the suffix left after removing the longest white-space prefix: everything removed is white space, and the result does not start with white space |
| TextUtil.IndexOf | pages/test-links.js:62 | -1 exactly when the character is absent; otherwise an index holding it with no earlier occurrence |
| TextUtil.QuoteFrom | pages/test-links.js:31 | the first `"` at or after a position, or the end of the text: where `[^"]+"` stops |
| OrderedSet.FirstOccurrencesElements | pages/test-links.js:28-43 | the set's listing holds exactly the values added, each once |
| OrderedSet.FirstOccurrencesOrder | pages/test-links.js:43 | the listing keeps first-insertion order |
| LinkChecker.HasExtensionMeaning | pages/test-links.js:76 | the extension test holds exactly when the path ends in a dot followed by one or more ASCII letters or digits (`/\.[a-z0-9]+$/i`) |
| LinkChecker.PagePath | pages/test-links.js:50-65 | the page path is the site path (base path, then one leading slash, removed) cut at its first `#`: an anchor-free prefix that ends at a `#` or at the end |
| LinkChecker.UrlToRelativePath | pages/test-links.js:49-83 | the file path is non-empty, anchor-free and ends in an extension; it extends the page path, and equals it exactly when the page path already has an extension |
| LinkChecker.DefaultIndexFile | pages/test-links.js:66-81 | a page path without an extension is read as a directory, and the file is its `index.html`: `index.html` for the root, `index.html` after a trailing slash, `/index.html` after anything else |
| LinkChecker.UrlToFilePathShape | pages/test-links.js:84 | the file path is the output directory, a slash, then the relative path, and it ends in an extension |
| LinkChecker.BasePrefixResolvesAlike | pages/test-links.js:51-54 | a URL without the base path and the same URL with it resolve to the same file |
| LinkChecker.BaseAndSlashStripped | pages/test-links.js:51-59 | base path and one slash are removed before anything else is looked at |
| LinkChecker.Exec | pages/test-links.js:31-34 | a reported match starts at or after `lastIndex` and is a match of `href="([^"]+)"` there |
| LinkChecker.ExecLeftmost | pages/test-links.js:31-34 | `exec` reports the leftmost match at or after `lastIndex`, and reports none only when no match remains |
| LinkChecker.HrefsAreAttributeValues | pages/test-links.js:31-35 | every captured value is non-empty, holds no quote, and stands in the page as `href="value"` |
| LinkChecker.QuotedValueIsMatch | pages/test-links.js:31 | conversely, wherever a non-empty value without a quote stands as `href="value"`, the pattern matches there and its capture ends at the closing quote |
| LinkChecker.IsInternalMeaning | pages/test-links.js:38 | a value is internal exactly when it starts with one slash not followed by a second; the two scheme tests never decide anything |
| LinkChecker.InternalOnlyElements | pages/test-links.js:37-40 | the filter keeps exactly the internal values |
| LinkChecker.AddLinksBuildsFirstOccurrences | pages/test-links.js:34-43 | adding the internal values one by one to a set yields the first occurrences of the internal values, in order |
| LinkChecker.ExtractLinks | pages/test-links.js:26-44 | the returned links are without duplicates, and a value is among them exactly when the page has it as an `href` value and it is internal |
| LinkChecker.InternalLinksElements | pages/test-links.js:26-44 | the same two facts about the links of any page, for use by the walk's lemmas |
| LinkChecker.AddPageLinks | pages/test-links.js:130-135 | filing each link of a page under that page merges the page's link map into the map |
| LinkChecker.AddFiles | pages/test-links.js:119-124 | the url gets a set (created when missing) holding the added files, and no other url changes |
| LinkChecker.MergeInto | pages/test-links.js:118-125 | merging a subdirectory's map adds its urls and unites the file sets url by url |
| LinkChecker.CollectLinks | pages/test-links.js:104-140 | the walk returns the link map of the listing: the merge of what every scanned subdirectory and `.html` file contributes |
| LinkChecker.PagesAreScannedFiles | pages/test-links.js:108-136 | the walk reads exactly the `.html` files of the tree that lie under no `_astro` or `pagefind` directory |
| LinkChecker.LinkMapKeys | pages/test-links.js:104-140 | a url is a key of the link map exactly when some page the walk reads links to it |
| LinkChecker.LinkMapContents | pages/test-links.js:128-134 | a file is listed under a url exactly when the page at that relative path links to it |
| LinkChecker.LinkMapKeysOfTree | pages/test-links.js:152 | the keys of the whole map are the internal links of the scanned pages of the output tree |
| LinkChecker.CheckLinks | pages/test-links.js:157-206 | the broken list holds, once each, exactly the links whose file is missing; the missing-base list holds exactly those with neither the base path nor `#` in front; the exit code is 1 exactly when either list is non-empty |
| LinkChecker.TestLinks | pages/test-links.js:145-206 | the check passes exactly when every internal link of every scanned page starts with the base path and resolves to an existing file |
| TransformDocs.CaptureStartMeaning | pages/transform-docs.js:28 | trying `^#\s+(.+)$` at a position finds a match exactly when one exists there, and reports the greedy one |
| TransformDocs.FindCaptureMeaning | pages/transform-docs.js:28 | the search reports the leftmost position with a match, and none when no position has one |
| TransformDocs.ExtractTitle | pages/transform-docs.js:27-30 | the title is non-empty and holds no line terminator |
| TransformDocs.ExtractTitleMeaning | pages/transform-docs.js:27-30 | with no match the title is `Untitled`; otherwise it is the rest of the line of the match the regular expression engine picks |
| TransformDocs.StandardHeading | pages/transform-docs.js:28-29 | a page that starts with `# ` and a title yields that title |
| TransformDocs.TitleAcrossLineBreak | pages/transform-docs.js:28-29 | the white space after `#` may cross a line break: `# \n# Real` gets the title `# Real`, and `# \n` gets `Untitled` |
| TransformDocs.HasFrontmatterMeaning | pages/transform-docs.js:35-37 | a page has frontmatter exactly when a `---` fence follows nothing but white space |
| TransformDocs.AddFrontmatter | pages/transform-docs.js:42-50 | the page always ends the result, and the result equals the page exactly when the page already has frontmatter |
| TransformDocs.AddFrontmatterBlock | pages/transform-docs.js:47-49 | what is added is the block `---`, `title: '<title>'`, `---` and a blank line, for the page's extracted title |
| TransformDocs.AddFrontmatterIdempotent | pages/transform-docs.js:42-50 | the result always has frontmatter, so adding frontmatter twice is adding it once |
| TransformDocs.BlockHasFrontmatter | pages/transform-docs.js:48 | any text behind a generated block has frontmatter |
| TransformDocs.CopyMarkdownFiles | pages/transform-docs.js:64-100 | the walk performs the copy plan of the listing, entry by entry in listing order |
| TransformDocs.PlanPrefix | pages/transform-docs.js:68-70 | every operation of a listing acts below that listing's own path |
| TransformDocs.PlanContents | pages/transform-docs.js:67-98 | an operation is performed at a path exactly when no component of the path is skipped and an entry at that path causes it: a directory is created, a `.md` file is written with frontmatter, and a `.json`, `.example` or `.schema` file is copied unchanged |
| TransformDocs.EntryPlanCases | pages/transform-docs.js:73-86 | a skipped entry causes nothing; an entry acts at its own path or, as a directory, through its listing |
| TransformDocs.WrittenDocsHaveFrontmatter | pages/transform-docs.js:55-58 | every markdown page written carries frontmatter and lies at a path the walk reaches |
| FixLinks.LinkMatchAt | pages/fix-links.js:31 | a match of the internal-link pattern starts with `href="/` and ends at a closing quote |
| FixLinks.NextLink | pages/fix-links.js:42 | the replacement's search reports a match at or after its position |
| FixLinks.NextLinkLeftmost | pages/fix-links.js:31-42 | the replacement's search finds the leftmost match at or after its position, and finds none only when no match remains |
| FixLinks.BaseBranchDead | pages/fix-links.js:54-56 | a matched value never equals the base path, because the lookahead has already refused it |
| FixLinks.CallbackOnMatch | pages/fix-links.js:42-60 | on a match, the callback either puts the base path in front of the value or gives back the match itself |
| FixLinks.CallbackLength | pages/fix-links.js:50-59 | a replacement is as long as the match, plus the base path when it sets `modified` |
| FixLinks.FixFromLength | pages/fix-links.js:42-60 | the replaced text is longer than the original by the base path once per rewrite |
| FixLinks.FixFromUnchanged | pages/fix-links.js:42-60 | with no rewrite, the replacement gives back the text unchanged |
| FixLinks.ChangedIffRewritten | pages/fix-links.js:39-62 | the text changes exactly when the callback sets `modified` |
| FixLinks.FixLinksInFile | pages/fix-links.js:36-66 | the new text is one pass of the replacement; the file is reported fixed exactly when `modified` was set, which is exactly when the text changed |
| FixLinks.QuotedValueMatch | pages/fix-links.js:31 | a quoted value matches the pattern exactly when it starts with a slash, is not the base path or under it, and the character after the slash is not `#` or white space |
| FixLinks.BaseAheadInQuotes | pages/fix-links.js:31 | inside quotes, the lookahead refuses exactly the base path and paths under it |
| FixLinks.NoMatchInsideQuotes | pages/fix-links.js:31 | no match starts inside a quoted value when the rest holds no quote |
| FixLinks.FixValueIdempotent | pages/fix-links.js:53-59 | a value that has been given the base path is never given it again |
| FixLinks.FixAttribute | pages/fix-links.js:42-60 | a single quoted value followed by no other `href="` is fixed by the per-value rule, the rest kept, and `modified` is set exactly when the value needs the base path |
| FixLinks.RootLinkFixed | pages/fix-links.js:29 | `href="/"` becomes `href="/opencode-warcraft-notifications/"` |
| FixLinks.RootAnchorKept | pages/fix-links.js:31 | `href="/#top"` is kept as it is and sets no `modified`, because the pattern refuses a `#` right after the slash; the link checker still counts `/#top` as lacking the base path (pages/test-links.js:168) |
| FixLinks.FixedNotIdempotent | pages/fix-links.js:31 | as written, a second pass changes a page the first pass produced (see Findings) |
| FixLinks.AlignedIdempotent | pages/fix-links.js:42-60 | the corrected pass, rewriting each `href` value in place, changes nothing on a second application |
| FixLinks.AlignedAgreesOnOneAttribute | pages/fix-links.js:31-60 | on one attribute followed by no other `href="`, the corrected pass and the pass as written agree |
| FixLinks.NoLinkInsideValue | pages/fix-links.js:31 | no match of the pattern starts inside an attribute, between its `href="` and its closing quote, unless the value ends with `href=` |
| FixLinks.QuotedValueMatchAt | pages/fix-links.js:31 | at an attribute anywhere in a page, the pattern matches exactly when it accepts the value, and then up to the attribute's closing quote |
| FixLinks.FixFromAttribute | pages/fix-links.js:42-60 | the pass as written, at an attribute with none before it and a value not ending with `href=`, keeps the text before it, fixes the value by the per-value rule, and resumes after the closing quote |
| FixLinks.RewritesAttribute | pages/fix-links.js:42-60 | on the same attribute, `modified` is set exactly when the value needs the base path |
| FixLinks.FixedIsAligned | pages/fix-links.js:31-60 | on a page where no `href` value ends with `href=`, the pass as written gives the same text as the corrected pass |
| FixLinks.AlignedKeepsNoValueEndsWithHref | pages/fix-links.js:53-59 | the corrected pass keeps every value from ending with `href=` |
| FixLinks.FixedIdempotent | pages/fix-links.js:36-66 | on such a page a second pass as written changes nothing and does not set `modified` |
| FixLinks.ProcessDirectory | pages/fix-links.js:76-100 | the walk returns the number of files written back and the tree it leaves: `_astro` and `pagefind` untouched, every other directory walked, every `.html` file whose pass set `modified` replaced |
| FixLinks.FixCountZero | pages/fix-links.js:78-99 | the walk reports no fixed file exactly when it leaves the tree as it was |
| FixLinks.FixTreePages | pages/fix-links.js:83-96 | after the walk, the link checker reads the same pages at the same paths, each holding one replacement pass of its old text |
| FixLinks.FixCountPages | pages/fix-links.js:83-96 | the walk reports no fixed file exactly when no page it reads has a value the pass would rewrite |
| FixLinks.SecondWalkFixesNothing | pages/fix-links.js:76-100 | on a site where no page has an `href` value ending with `href=`, running the fixer a second time writes back nothing, counts no file and leaves the tree as it was |
| Plugin.InitLines | src/index.ts:26-28 | three lines, all starting with the plugin's tag: the initialised line, then the `Project:` line ending with the project id and the `Worktree:` line ending with the worktree |
| Plugin.InitLinesReadBack | src/index.ts:27-28 | the project id and the worktree can be read back from their lines |
| Plugin.EventLines | src/index.ts:33-55 | one or two lines, the first being the received line with the event's type |
| Plugin.EventLinesByTable | src/index.ts:38-54 | each of the four types adds exactly its own emoji and text; any other type adds nothing |
| Plugin.SecondLineIffKnown | src/index.ts:38-54 | a second line is logged exactly for the four types, and it starts with the tag |
| Plugin.ReceivedReadBack | src/index.ts:35 | the event type can be read back from the received line |
| Plugin.NoticesDistinct | src/index.ts:39-50 | different event types log different notice lines |

## Left out

- File-system I/O (`readdir`, `readFile`, `writeFile`, `copyFile`, `mkdir`, `access`) is not modelled directly. A directory is a value of `FileTree.Entry`. The files `access` succeeds on are a parameter `existing`. The writes of the copy script are a list of operations. The fixer's writes are the tree it returns.
- `readdir` order is whatever order the listing value has. Symbolic links and other special entries are neither directories nor files: every walk passes over them.
- LinkChecker.UrlToFilePath: joins with a plain `/`. The `..`, `.` and duplicate-slash normalisation that `path.join` does on the file path is not modelled.
- Strings are sequences of Unicode scalar values, not UTF-16 code units. This makes no difference to the patterns modelled, because all of them test only ASCII characters, white space and line terminators.
- Console output of the three scripts is not modelled: the banners, the per-file `✓` lines, the report truncated to ten entries, and the messages before `process.exit`. The link checker's exit status is modelled by `LinkChecker.CheckLinks`. `fixedCount`'s only other use is the final message, so it is modelled but that message is not.
- The error paths are not modelled: the catch of `fixLinksInFile` (pages/fix-links.js:67-70), the catch blocks of the three `main` functions, and any I/O failure. The model has no failing I/O.
- `async`/`await` is not modelled. Every call completes before the next one starts, as the scripts' `await`s enforce.
- Plugin.InitLines: `project.id` is taken as a string. The host's `Plugin` type and the object the hook returns are not modelled; the hook is modelled by `Plugin.EventLines`.
- `src/index.ts` has no registry of event kinds, no configuration and no shutdown. The model is its fixed four-way switch, which logs and plays no sound.
- `pages/astro.config.mjs` configures a different base for the site framework; the scripts do not read it. `pages/generate-favicon.mjs` and the lint configurations are not part of this model.

## Findings

| source | as written | input that shows it | evidently intended | confidence | as-written member | corrected member |
|---|---|---|---|---|---|---|
| pages/fix-links.js:31 | `[^"]*?` runs past a nested `href="` inside an unterminated value, so a pass rewrites the outer value and then resumes after its closing quote, which sits inside what was the next attribute; a second pass, refused at the now prefixed start, finds the inner `href="/y"` and rewrites it too | the page text `href="/xhref="/y"` | running the fixer on an already fixed page changes nothing: each `href` value gets the base path at most once | not executed | FixLinks.FixedNotIdempotent | FixLinks.AlignedIdempotent |

`FixLinks.FixedNotIdempotent` exhibits the failing second pass of the replacement as written. `FixLinks.Aligned` rewrites each `href="…"` value in place with the same per-value rule (`FixLinks.FixValue`). `FixLinks.AlignedIdempotent` proves that this corrected pass is idempotent. `FixLinks.FixedIsAligned` proves that the written pass agrees with it on every page where no `href` value ends with `href=`, which is the only way a match can start inside a value. On such pages the written pass is therefore idempotent too (`FixLinks.FixedIdempotent`), and a second run of the fixer over such a site writes nothing back (`FixLinks.SecondWalkFixesNothing`). `FixLinks.FixLinksInFile`, `FixLinks.ProcessDirectory` and `FixLinks.FixTreePages` keep the pattern as written, because that is what the script does to a built site.
