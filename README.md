# connorpedia core, modelled in Dafny

connorpedia is a personal wiki served from a vault of markdown files. This project
models the part of it that turns the vault into pages and links:

- **vault index**: a recursive walk of the vault that skips hidden and `templates`
  directories and registers every `.md` file under two lower-case keys, its bare file
  name and its full slug path. The full path always wins; for a bare file name, the
  first file found wins. Around it sit the lazily built, cached index, the
  resolution of wiki-link text (exact key, then with whitespace runs turned into
  hyphens), and the list of distinct pages;
- **wiki links in markdown**: the `[[target]]` / `[[target|label]]` scanner, the
  remark transform that splices text and link nodes into the parent, blue links to
  resolved pages, and red `wiki-link-missing` links to a slugified address;
- **table of contents**: heading anchor ids, the stack-driven nesting of headings
  into a tree (level-1 headings skipped), and the HTML rendering of that tree;
- **search index**: the same walk, reading each article's front matter and body
  into title, slug, category, plain content, excerpt and tags, skipping files that
  cannot be read; plus the client-side projection of each entry;
- **statistics**: per-category page counts, recent changes sorted newest first and
  cut to a limit, and a random article, optionally from one category;
- **components**: the alphabetical category index, the type-driven info box (field
  configurations, labels, wiki links inside values, the render-nothing rule), and the
  generic front-matter table.

Files become `Vault.Entry` trees. JavaScript maps become insertion-ordered association
lists. Front-matter values become `Values.Value`. `Array.prototype.sort` becomes the
stable insertion sort of `Sorting`. The module-level cache of `lib/vault-index.ts` is
the class `VaultIndex.PageCache`. Loops that update state are methods with loop
invariants, proved equal to the functions that specify them.

The model follows the code where the written description of the system differs:

- heading ids are trimmed of whitespace only, not of hyphens, so a heading such as
  `- A -` keeps its outer hyphens;
- a page's title in the vault index comes from its file name only, never from front
  matter (only the search index reads the `title` field).

## Model

| member | source | states |
|---|---|---|
| AssocList.SetGet | lib/vault-index.ts:59-63 | after `set(k, v)`, `get(k)` is `v` and every other key reads as before |
| AssocList.HasIffGet | lib/vault-index.ts:81-88 | `has(k)` holds exactly when `get(k)` returns a value, and exactly when some entry has key `k` |
| AssocList.SetKeys | lib/vault-index.ts:59-63 | `set` keeps keys unique; a new key is appended at the end of the key order, an existing one keeps its place |
| VaultWalk.WalkComplete | lib/vault-index.ts:25-36 | the walk visits exactly those regular files of the whole tree, in listing order and depth first, that are `.md` files reached only through directories not named `.…` or `templates` |
| VaultWalk.WalkSound | lib/vault-index.ts:25-36 | every visited file is a `.md` file that lies below the directory scanned, reached only through visible, non-`templates` directories |
| VaultWalk.SlugIsPath | lib/vault-index.ts:38-42 | the slug of a visited file is its directory path followed by its file name without `.md` |
| VaultIndex.PageCache.BuildPageIndex | lib/vault-index.ts:18-70 | the first call scans the vault once and caches the index of its registrations; later calls return the cached index without scanning again |
| VaultIndex.PageCache.ScanDirectory | lib/vault-index.ts:25-66 | scanning a directory registers, in walk order, every file the walk visits |
| VaultIndex.PageCache.RegisterFile | lib/vault-index.ts:44-63 | registering a file sets its full-path key, and sets its file-name key only if that key was absent |
| VaultIndex.PageCache.ResolveWikiLink | lib/vault-index.ts:76-92 | resolves against the cached index (building it on first use) exactly as the lower-case, trimmed, then hyphenated lookup prescribes |
| VaultIndex.PageCache.GetAllPages | lib/vault-index.ts:97-111 | returns the index's pages de-duplicated by joined slug, in index order |
| VaultIndex.DistinctPages | lib/vault-index.ts:99-110 | the seen-set loop yields exactly the first page of every distinct joined slug |
| VaultIndexFacts.IndexPrecedence | lib/vault-index.ts:59-63 | in the built index a key maps to the last file whose full path it is, else to the first file whose bare name it is |
| VaultIndexFacts.FullPathKeyWins | lib/vault-index.ts:63 | a file's full-path key resolves to that file unless a later file has the same full path |
| VaultIndexFacts.FirstFileNameWins | lib/vault-index.ts:60-62 | a bare file-name key resolves to the first file with that name, provided no full path equals it |
| VaultIndexFacts.IndexKeys | lib/vault-index.ts:44-63 | a key is in the index exactly when some file has it as bare name or full path |
| VaultIndexFacts.IndexValues | lib/vault-index.ts:51-63 | every value in the index is the page of some registered file |
| VaultIndexFacts.IndexUniqueKeys | lib/vault-index.ts:23 | the index never holds a key twice |
| VaultIndexFacts.ResolveMisses | lib/vault-index.ts:78-91 | resolution fails exactly when neither the trimmed lower-case text nor its hyphenated form is a key |
| VaultIndexFacts.ResolveIgnoresCase | lib/vault-index.ts:78 | resolving text and resolving its lower-case form give the same result |
| VaultIndexFacts.ResolvesToPage | lib/vault-index.ts:76-92 | a successful resolution returns the page of a registered file |
| VaultIndexFacts.ResolveFullPath | lib/vault-index.ts:81-83 | text whose trimmed lower-case form is a file's full path resolves to that file |
| VaultIndexFacts.ResolveHyphenatedFullPath | lib/vault-index.ts:86-89 | text that matches a full path once its whitespace runs become hyphens resolves to that file when the exact lookup misses |
| VaultIndexFacts.ResolveFileName | lib/vault-index.ts:81-83 | text whose trimmed lower-case form is a file's bare name resolves to the first file with that name |
| VaultIndexFacts.DistinctUnique | lib/vault-index.ts:103-107 | no two listed pages share a joined slug |
| VaultIndexFacts.DistinctCovers | lib/vault-index.ts:102-108 | every listed page comes from the index, and every joined slug in the index is listed |
| VaultIndexFacts.DistinctKeepsFirst | lib/vault-index.ts:104-106 | each listed page is the first index entry with its joined slug |
| VaultIndexFacts.PageListed | lib/vault-index.ts:102-108 | a page that is the only page for its slug is listed |
| WikiLink.MatchAtSound | lib/remark-wiki-link.ts:17 | a match at `p` is the text `[[target]]` or `[[target\|label]]` with a non-empty target free of `]` and `\|` and a non-empty label free of `]` |
| WikiLink.MatchAtComplete | lib/remark-wiki-link.ts:17 | every well-formed link written at `p` is found there, with its target and label |
| WikiLink.NextMatchLeftmost | lib/remark-wiki-link.ts:23 | `exec` from `lastIndex` finds the leftmost match at or after it, and none exists when it reports none |
| WikiLink.PiecesSpellText | lib/remark-wiki-link.ts:23-81 | the plain pieces and links of a text, concatenated, give back the text |
| WikiLink.ScanEmpty | lib/remark-wiki-link.ts:23 | the scan finds nothing exactly when no position holds a link |
| WikiLink.ScanLeftmost | lib/remark-wiki-link.ts:23-70 | every link found is a genuine match at its own start, inside the scanned range |
| WikiLink.ScanOrdered | lib/remark-wiki-link.ts:70 | links are found left to right without overlapping |
| WikiLink.PiecesWellSpaced | lib/remark-wiki-link.ts:29-34 | no two plain pieces are adjacent and no plain piece is empty |
| RemarkWikiLink.TransformText | lib/remark-wiki-link.ts:13-86 | a text node holding a link is replaced in its parent by the new nodes, with the siblings around it kept; a node without a link is left alone and the index is not even built |
| RemarkWikiLink.CollectLinks | lib/remark-wiki-link.ts:19-71 | the `exec` loop collects exactly the nodes for the scanned pieces and stops where the last link ends |
| RemarkWikiLink.HasWikiLinkIff | lib/remark-wiki-link.ts:74 | nodes are produced exactly when some position of the text holds a link |
| RemarkWikiLink.ReplacementKeepsText | lib/remark-wiki-link.ts:28-81 | one node per piece: plain text is kept verbatim, each link shows its display text |
| RemarkWikiLink.LinkClasses | lib/remark-wiki-link.ts:39-68 | a link node is plain `wiki-link` exactly when its target resolves and `wiki-link` `wiki-link-missing` exactly when not; its url starts with `/wiki/`, its title is null |
| RemarkWikiLink.ResolvedLinkAddressesPage | lib/remark-wiki-link.ts:37-41 | a resolved link points at `/wiki/` plus the joined slug of a registered page |
| RemarkWikiLink.MissingLinkAddress | lib/remark-wiki-link.ts:55-56 | a red link points at `/wiki/` plus the trimmed, lower-cased target with its whitespace runs turned into hyphens; that key is exactly the one resolution missed, and the url contains no whitespace |
| RemarkWikiLink.DisplayTrimmed | lib/remark-wiki-link.ts:25-26 | the display text is trimmed, and is the target whenever the label is absent or blank |
| Toc.HeadingIdShape | lib/toc.ts:27-32 | an id holds only lower-case word characters and single hyphens, no whitespace; the final trim changes nothing |
| Toc.HeadingIdIdempotent | lib/toc.ts:27-32 | the id of an id is itself |
| Toc.GenerateToc | lib/toc.ts:42-75 | the stack loop builds exactly the tree obtained by inserting each non-title heading under the last shallower one |
| Toc.BuildPreorder | lib/toc.ts:45-73 | the tree read in preorder is the list of non-level-1 headings, in document order |
| Toc.NoTitleInToc | lib/toc.ts:47 | no level-1 heading appears in the tree, and every item carries the id of its own text |
| Toc.BuildNested | lib/toc.ts:56-72 | every child is deeper than its parent |
| Toc.NestingExample | lib/toc.ts:56-72 | a deeper heading nests under the one before it, and a heading back at that level becomes its sibling |
| Toc.TopLevelIff | lib/toc.ts:56-62 | a heading becomes a new top-level item exactly when no item on the current spine (the chain of last children) is shallower than it |
| Toc.RenderToc | lib/toc.ts:81-98 | the rendered string is the spelling of the tag sequence of the tree |
| Toc.RenderedList | lib/toc.ts:82-97 | an empty list renders as nothing, a non-empty one as one `ul` around its entries |
| Toc.RenderedAnchors | lib/toc.ts:86-95 | the anchors in the HTML are, in order, the id and text of every item in preorder |
| SearchIndex.StripFrontBlockOf | lib/search-index.ts:72 | a leading `---…---` block is removed up to its first closing `---` |
| SearchIndex.PlainContentShape | lib/search-index.ts:71-74 | plain content has no markdown formatting characters and no surrounding whitespace |
| SearchIndex.ExcerptShape | lib/search-index.ts:75-76 | a text of at most 200 characters is its own excerpt; a longer one gives a prefix of its first 200 characters with only trailing whitespace dropped, followed by `...` |
| SearchIndex.ArticlesCount | lib/search-index.ts:36-89 | every visited file gives one article except those that cannot be read |
| SearchIndex.ArticleAgreesWithPage | lib/search-index.ts:52-64 | an article has the same slug and path as its vault-index page, that page's title when front matter has no title, and its capitalised top folder (or `General`) as category |
| SearchIndex.BuildSearchIndex | lib/search-index.ts:21-96 | the scan yields the articles of the walked files, in walk order |
| SearchIndex.ScanDirectory | lib/search-index.ts:24-92 | scanning a directory appends the articles of the files below it |
| SearchIndex.ReadArticle | lib/search-index.ts:36-89 | an unreadable file gives no article; a readable one gives its title, tags, category, plain content and excerpt |
| SearchIndex.BuildClientSearchIndex | lib/search-index.ts:102-112 | one client entry per article, with the same title, slug, category, excerpt and tags |
| Stats.InCategory | lib/stats.ts:87-89 | the pages kept are exactly those whose first slug segment is the category |
| Stats.CountCategories | lib/stats.ts:28-50 | the counting loop gives the page total and, for each of the five known folders, the number of pages in it |
| Stats.CategoryCountsBounded | lib/stats.ts:42-47 | the five category counts add up to at most the total |
| Stats.CollectChanges | lib/stats.ts:57-72 | one change per page whose file can be stat'ed, in page order, unreadable ones skipped |
| Stats.ChangesFromPages | lib/stats.ts:59-67 | every change carries the title, slug and modification time of some page |
| Stats.SortByDateSorted | lib/stats.ts:75 | changes are sorted newest first |
| Stats.SortByDatePermutes | lib/stats.ts:75 | sorting loses and invents no change |
| Stats.SortByDateStable | lib/stats.ts:75 | changes with the same time keep their order |
| Stats.Slice | lib/stats.ts:77 | `slice(0, limit)` is the prefix of length `limit` (clamped), or all but the last `-limit` for a negative limit |
| Stats.RecentChangesShape | lib/stats.ts:55-78 | the result is sorted newest first, has at most `limit` entries and no more than there are pages, and no change left out is newer than one kept |
| Stats.PickIndex | lib/stats.ts:95 | `floor(random * n)` is a valid index |
| Stats.PickIndexCovers | lib/stats.ts:95 | every index is drawn for some random value |
| Stats.RandomArticleSound | lib/stats.ts:83-99 | null exactly when no page qualifies; otherwise the title and slug of a page in the requested category |
| StatsOfVault.GetVaultStats | lib/stats.ts:28-50 | the statistics of the distinct pages of the cached index |
| StatsOfVault.GetRecentChanges | lib/stats.ts:55-78 | the recent changes of the distinct pages of the cached index |
| StatsOfVault.GetRandomArticle | lib/stats.ts:83-99 | the random pick among the distinct pages of the cached index |
| Sorting.SortSorted | lib/stats.ts:75 | the result of the sort is ordered by the key |
| Sorting.SortPermutes | lib/stats.ts:75 | the sort is a permutation |
| Sorting.SortStable | lib/stats.ts:75 | elements with equal keys keep their relative order |
| CategoryIndex.CategoryTitle | app/components/CategoryIndex.tsx:10-13 | each hyphen becomes a space and the first letter of every word is upper-cased, all else unchanged |
| CategoryIndex.SameGroupIff | app/components/CategoryIndex.tsx:19-23 | two titles share a group exactly when both are empty or their first characters agree up to case; a group key has no lower-case letter |
| CategoryIndex.GroupByLetter | app/components/CategoryIndex.tsx:16-24 | the loop yields the keys in order of first appearance and, for each key, exactly its articles in order |
| CategoryIndex.LettersOfKeys | app/components/CategoryIndex.tsx:20-22 | the keys have no duplicate, and a key is present exactly when some article has it |
| CategoryIndex.InGroupMembers | app/components/CategoryIndex.tsx:23 | a group holds exactly the articles with its key |
| CategoryIndex.RankOrder | app/components/CategoryIndex.tsx:26 | for keys of at most one character, the rank order is the string order `sort()` uses |
| CategoryIndex.SortedLettersAreKeys | app/components/CategoryIndex.tsx:26 | the sorted keys are distinct and are exactly the keys present |
| CategoryIndex.SectionsAscending | app/components/CategoryIndex.tsx:26-40 | sections appear in strictly increasing string order of their letter |
| CategoryIndex.EmptyTitlesFirst | app/components/CategoryIndex.tsx:19-26 | if some title is empty, the first section is the one with the empty key |
| CategoryIndex.ArticleInItsSection | app/components/CategoryIndex.tsx:40-53 | every article is listed in the section of its own letter |
| CategoryIndex.RenderCategoryIndex | app/components/CategoryIndex.tsx:8-58 | the rendering loop produces the view: count text, title and one section per sorted key |
| CategoryIndex.CountText | app/components/CategoryIndex.tsx:33 | the description says `page.` exactly when there is one article |
| CategoryIndex.HrefNamesSlug | app/components/CategoryIndex.tsx:46 | a link is `/wiki/` followed by the slug, which splitting on `/` gives back |
| FrontMatter.KeptMembers | app/components/FrontMatter.tsx:7 | an entry is kept exactly when its value is neither `undefined` nor `null` |
| FrontMatter.KeptIdempotent | app/components/FrontMatter.tsx:7 | filtering twice is filtering once |
| FrontMatter.NoBoxIff | app/components/FrontMatter.tsx:9-11 | nothing is rendered exactly when every value is `undefined` or `null` |
| FrontMatter.RowsMatchEntries | app/components/FrontMatter.tsx:28-33 | every entry with a value has a row with its capitalised key and formatted value, and every row comes from such an entry |
| FrontMatter.FormatValueShows | app/components/FrontMatter.tsx:13-21 | a string is shown as itself, a non-negative number as its decimal digits, a one-element array as that element |
| FrontMatter.FormatStrings | app/components/FrontMatter.tsx:14-16 | an array of strings is shown as the strings joined by `, ` |
| FrontMatter.HeaderFixes | app/components/FrontMatter.tsx:30 | forming a header twice is forming it once, and a key that does not start with a lower-case letter is its own header |
| InfoBox.ProcessWikiLinks | app/components/InfoBox.tsx:61-95 | the `exec` loop produces exactly the parts of the scanned text, or the text itself when there are none |
| InfoBox.ProcessedKeepsText | app/components/InfoBox.tsx:70-92 | one part per piece: text verbatim, each link an anchor to `/wiki/` plus its raw target |
| InfoBox.ProcessedUnchangedIff | app/components/InfoBox.tsx:89-94 | the text is returned as is exactly when it is empty; a non-empty text without links becomes one text part |
| InfoBox.AnchorsFromText | app/components/InfoBox.tsx:76-84 | an anchor's address is `/wiki/` plus the untrimmed target as written, and its display is never empty |
| InfoBox.NumberHasNoLink | app/components/InfoBox.tsx:114 | a number's text contains no link and is shown as one text part |
| InfoBox.ConfigChoice | app/components/InfoBox.tsx:54-55 | a string `type` selects a configuration case-insensitively, falling back to person |
| InfoBox.LabelChoice | app/components/InfoBox.tsx:122 | a known field takes its fixed label, which starts upper-case; any other field is capitalised |
| InfoBox.RowsExactly | app/components/InfoBox.tsx:118-125 | rows are exactly the configured non-image fields with a value that is not `undefined`, `null` or empty |
| InfoBox.RowsAppend | app/components/InfoBox.tsx:118-125 | the rows of two field lists are the rows of each, in order |
| InfoBox.FormatValueText | app/components/InfoBox.tsx:98-115 | the text shown for a missing value is empty; a link-free array shows its elements joined by `, `; an object shows its stringified form; a link-free scalar shows its string form |
| InfoBox.RowsEmptyIff | app/components/InfoBox.tsx:118-125 | no row exactly when no configured non-image field has a value |
| InfoBox.RenderNothingIff | app/components/InfoBox.tsx:127-130 | nothing is rendered exactly when there is no row and no truthy image |
| InfoBox.CardCells | app/components/InfoBox.tsx:147-155 | a rendered card has one non-empty cell per row, the formatted value of that row |
| Text.JoinSplit | lib/vault-index.ts:42-49 | joining the parts of a split with the separator gives back the string |
| Text.SplitJoin | lib/vault-index.ts:42-49 | splitting a join of separator-free parts gives back the parts |
| Text.TrimTrimmed | lib/vault-index.ts:78 | a trimmed string has no whitespace at either end and trims to itself |
| Text.TitleCaseIsCharwise | lib/vault-index.ts:52-54 | the title of a file name is that name with hyphens turned into spaces and each word's first letter upper-cased |
| Text.LowerStrIdempotent | lib/vault-index.ts:46-49 | lower-casing twice is lower-casing once |

## Left out

- File system access (`readdirSync`, `readFileSync`, `statSync`) is not modelled. The vault is a value (`Vault.Entry` trees), a file's readability is part of its entry, and `statSync` is a parameter `stat: string -> Option<int>`.
- `path.join` and `path.relative` are modelled on '/'-joined segment lists (`Vault.FullPath`, `Vault.RelativePath` below `Vault.VaultPath`); the slug equals the segment list only for names without '/' (the condition of `VaultWalk.SlugIsPath`). Windows separators and `..` or `.` segments are not modelled.
- VaultIndex.PageCache.BuildPageIndex: every directory of the model can be listed. In the source, a `readdirSync` that throws (a missing vault root, an unreadable subdirectory) leaves the already created map cached partly filled, or empty for a missing root. Every later lookup then serves that partial map without scanning again. SearchIndex.BuildSearchIndex: the same failure escapes as an exception, because the listing is outside the per-file `try`. Neither failure is modelled.
- gray-matter parsing is not modelled: each file carries its parsed front matter (or none when parsing fails) and its body.
- The `unist-util-visit` walk over the markdown tree is left out. `RemarkWikiLink.TransformText` models the callback for one text node and its parent.
- The regular expressions are hand-written scanners with the same matching rules (`WikiLink`, `Text.ReplaceRuns`, `Text.Filter`). The JavaScript regex engine itself is not modelled.
- Characters are code points with ASCII-only case mapping; UTF-16 surrogate pairs and Unicode case folding are not modelled.
- JavaScript numbers are integers in `Values.Value`; floating-point values and `Date` objects are left out (modification times are integers).
- `JSON.stringify` is a parameter `stringify`; `Math.random()` is a parameter `random` with `0 <= random < 1`.
- React/JSX markup, CSS classes other than the wiki-link classes, and console logging are left out. Components are modelled as the data they render.
- `Object.keys` and `Object.entries` ordering of integer-like keys is not modelled. CategoryIndex sorts its keys afterwards, so the order does not matter there. FrontMatter.FrontMatterBox keeps the data's own entry order, where the source lists integer-like keys first.
- Prototype keys reached through `in` and `[]` on plain objects (`toString`, `constructor`) are not modelled; lookups see only the data's own entries.
- `Array.prototype.sort` is modelled by its specification as a stable insertion sort (`Sorting.SortByKey`), not by the engine's algorithm.
- The table of contents is built on values: the source's aliasing of a parent's `children` array is modelled by appending under the last item at the right depth.
- Extraction of headings and their text from markdown is left out; `Toc.GenerateToc` takes the heading list.
- VaultIndex.PageCache.BuildPageIndex: the cache is modelled per vault value; a vault that changes on disk after the first scan is not modelled.
- StatsOfVault.GetVaultStats, StatsOfVault.GetRecentChanges and StatsOfVault.GetRandomArticle state their result only as the functions `Stats.StatsOf`, `Stats.RecentChanges` and `Stats.RandomArticle`, over the cached index; the properties of those functions are proved separately.
- Stats.RecentChanges: takes the limit explicitly; the default `limit = 5` of lib/stats.ts:55 is not modelled (the one caller passes 5).
- Stats.RecentChangesShape: does not state that a page contributes at most one change; stated only for `limit >= 0`; a negative limit is handled by `Stats.Slice`, whose contract covers it.
