# Vulkan tutorial e-book assembler: document assembly

This project models the document-assembly stage of `build_ebook_v2.py`, the
script that turns the Vulkan tutorial's Markdown sources into one document
for pandoc. It proves properties of that model. The stage has four parts:

- **Naming convention** (module `Naming`). An entry's stem has its
  underscores turned into spaces and is split on single spaces. The first
  token is the ordering token. A child's sort prefix is its parent's prefix,
  then the ordering token, then `.`. The remaining tokens, rejoined with
  spaces, are a file's title.
- **Directory walk** (module `Walk`). The `VTEMarkdownFile` record is the
  datatype `Fragment`. The accumulator list is the class `FragmentList`.
  `_process_files_in_directory` is the recursive method
  `ProcessFilesInDirectory`. It appends one fragment per file, depth first,
  to the list it is given, or to a fresh list. The content tree is an
  in-memory `Entry` tree, and a directory's children are in whatever order
  the file system lists them. The method is proved against the function
  `Fragments`. `Fragments` in turn is proved equal to an independent
  description that derives every fragment from its file's path.
- **Ordering** (module `Ordering`). `sorted(..., key=prefix)` is Python's
  stable sort under code-point string order. It is modelled as insertion
  sort and proved to be a permutation, sorted and stable. It is also proved
  to be the only list with these three properties.
- **Rewrite and concatenation** (modules `Rewriting` and `Assembly`). The
  heading is built first and then passed through the four substitutions in
  the source's order:
  - `/images/` becomes `images/`;
  - `.svg` becomes `.png`;
  - `](/` becomes `](https://vulkan-tutorial.com/`;
  - a chapter reference `](!target)` becomes `](#anchor)`.

  Each substitution is an explicit left-to-right scanner with the
  semantics of `re.sub`. The method `GenerateMarkdownFromSources` runs the
  walk, the sort and the concatenation loop, and is proved to return
  `Document(SortByPrefix(Fragments(root, 0, "")))`.

Module `Strings` holds the string helpers: `str.split`, `str.join`,
character replacement, ASCII lower-casing and literal occurrence. Module
`Scenario` works one whole tree through every stage: an introduction that
refers to a set-up chapter, and a directory holding an install chapter.

The records and the tree are datatypes of module `Walk`. `Fragment` is
`VTEMarkdownFile` (build_ebook_v2.py:47-51), with its four attributes
`content`, `depth`, `prefix` and `title`. `Entry` is an entry of the content
tree, as `iterdir` yields it (line 187): a file, with its stem and content, or
a directory, with its stem and children.

Behaviour of the code worth noting:

- The heading `# title` is put in front of the content before the
  substitutions run (build_ebook_v2.py:149), so titles are rewritten as well
  as the content.
- Stems are split on single spaces (line 188), after `_` is turned into a
  space. A run of whitespace is not one separator: doubled separators give
  empty tokens, and these survive into the title (`Naming.TitleIsRemainder`).
- An empty stem does not fail. It yields the ordering token `""`, the prefix
  `parent + "."` and an empty title.
- A reference resolves to the last path segment of its target
  (lines 161-163). So `](!/2_Setup)` becomes `](#2-setup)`
  (`Scenario.ExampleDocument`).
- Fragments that share a prefix keep the order of the walk
  (`Ordering.SortStable`), which depends on the listing order of the file
  system.

## Model

| member | source | states |
|---|---|---|
| Strings.Join | build_ebook_v2.py:198 | `' '.join(...)`; characterised by `Strings.JoinSplit`, `Strings.JoinTail` and `Strings.SplitJoin` |
| Strings.FirstIndex | build_ebook_v2.py:188 | the index of the first separator: no separator before it, and the separator at it unless it is the end |
| Strings.FirstIndexUnique | build_ebook_v2.py:188 | any index with those properties is the first separator's index |
| Strings.Split | build_ebook_v2.py:188 | `split(sep)` gives at least one token, its first token is the text before the first separator, and no token holds the separator |
| Strings.JoinSplit | build_ebook_v2.py:188-198 | joining the tokens of a split with the same separator gives back the original string |
| Strings.JoinTail | build_ebook_v2.py:198 | the tokens after the first, rejoined, are exactly what follows the first separator; none when there is no separator |
| Strings.SplitJoin | build_ebook_v2.py:188-198 | splitting a join of one or more tokens, none holding the separator, gives back the tokens (a join of no tokens is `""`, which splits into one empty token) |
| Strings.ReplaceChar | build_ebook_v2.py:188 | `replace('_', ' ')` keeps the length |
| Strings.ReplaceCharAt | build_ebook_v2.py:188 | replacement changes exactly the occurrences of the character, position by position |
| Strings.ReplaceCharConcat | build_ebook_v2.py:188 | replacement distributes over concatenation |
| Strings.LowerChar | build_ebook_v2.py:161 | the result is never a capital; an ASCII capital is moved up by 32 code points, to its lower-case letter, and anything else is kept |
| Strings.LowerAscii | build_ebook_v2.py:161 | ASCII lower-casing, the model of `lower()`, keeps the length |
| Strings.LowerAsciiAt | build_ebook_v2.py:161 | `lower()` acts on each character on its own |
| Strings.LowerAsciiConcat | build_ebook_v2.py:161 | `lower()` distributes over concatenation |
| Strings.FirstIndexAfter | build_ebook_v2.py:188 | the first separator after a separator-free stretch is at the end of that stretch |
| Naming.Spaced | build_ebook_v2.py:188 | `stem.replace('_', ' ')`; characterised by `Naming.SpacedSuffix`, `Naming.SpacedConcat` and `Naming.SpacedNoUnderscore` |
| Naming.Title | build_ebook_v2.py:198 | the title: every token after the first, rejoined with spaces; characterised by `Naming.TitleIsRemainder`, `Naming.BareTokenHasEmptyTitle` and `Naming.TokenThenRemainder` |
| Naming.TitleTokens | build_ebook_v2.py:188 | there is always a first token, so `title_tokens[0]` never fails |
| Naming.OrderingToken | build_ebook_v2.py:188-189 | the ordering token is the longest prefix of the stem holding neither `_` nor a space |
| Naming.ChildPrefix | build_ebook_v2.py:189 | a child's prefix strictly extends its parent's prefix and ends with `.` |
| Naming.TitleIsRemainder | build_ebook_v2.py:188-198 | the title is empty when the stem has no separator; otherwise it is the rest of the stem after the first separator, with `_` shown as a space, and token + space + title is the spaced stem |
| Naming.TokenIsFirstPart | build_ebook_v2.py:188-189 | the ordering token is the spaced stem up to its first space |
| Naming.SpacedSuffix | build_ebook_v2.py:188 | turning `_` into spaces commutes with taking a suffix |
| Naming.BareTokenHasEmptyTitle | build_ebook_v2.py:188-198 | a stem that is a bare token is its own ordering token and has an empty title |
| Naming.TokenThenRemainder | build_ebook_v2.py:188-198 | a stem `token`, separator, `rest` has ordering token `token` and title `rest` with `_` shown as spaces |
| Naming.SpacedNoUnderscore | build_ebook_v2.py:188 | text without `_` is shown as it is |
| Naming.SpacedConcat | build_ebook_v2.py:188 | turning `_` into spaces distributes over concatenation |
| Naming.TwoWordTitle | build_ebook_v2.py:188-198 | a stem `token_word1_word2` has ordering token `token` and title `word1 word2` |
| Walk.Fragments | build_ebook_v2.py:187-202 | the fragments the walk of one listing appends, in order; characterised by `Walk.FragmentsFollowPaths`, `Walk.FragmentsAppend` and `Walk.FragmentsExtendPrefix` |
| Walk.EntryFragments | build_ebook_v2.py:188-202 | the fragments of one entry: one for a file, those of its children for a directory; characterised by `Walk.EntryFollowsPaths` |
| Walk.FragmentsAppend | build_ebook_v2.py:187-202 | walking two listings one after the other appends their fragments |
| Walk.FragmentsStep | build_ebook_v2.py:187-202 | one more entry of a listing adds that entry's fragments at the end |
| Walk.Nest | build_ebook_v2.py:194 | seeing a sub-directory's files from its parent puts the directory's stem in front of each path and changes nothing else |
| Walk.FragmentsFollowPaths | build_ebook_v2.py:187-202 | the walk yields exactly one fragment per file, in listing order, none for directories; each has its file's content and title, the starting depth plus the number of enclosing directories, and the prefix chained along its path |
| Walk.EntryFollowsPaths | build_ebook_v2.py:188-202 | the same, for the files at or below one entry |
| Walk.NestedFragment | build_ebook_v2.py:189-194 | a file seen from inside a directory at depth + 1 and with the directory's prefix yields the same fragment as seen from the parent |
| Walk.FragmentsExtendPrefix | build_ebook_v2.py:189-194 | every fragment's prefix starts with the starting prefix, is strictly longer and ends with `.`; no fragment is shallower than the starting depth |
| Walk.FragmentList.constructor | build_ebook_v2.py:185 | a fresh accumulator is empty |
| Walk.FragmentList.Append | build_ebook_v2.py:202 | `append` adds exactly the one fragment at the end |
| Walk.ProcessFilesInDirectory | build_ebook_v2.py:176-204 | returns the list it was given, or a fresh one when given none; what the list held is kept in order, and the walk's fragments follow it |
| Ordering.LexLe | build_ebook_v2.py:143 | Python's `<=` on strings, code point by code point; proved a total order by the four lemmas below |
| Ordering.Insert | build_ebook_v2.py:143 | one step of the stable sort; characterised by `Ordering.InsertPermutes`, `Ordering.InsertSorted` and `Ordering.InsertStable` |
| Ordering.SortByPrefix | build_ebook_v2.py:143 | `sorted(md_files, key=prefix)`; characterised by `Ordering.SortPermutes`, `Ordering.SortSorts`, `Ordering.SortStable` and, as the only such list, `Ordering.SortIsTheStableSort` |
| Ordering.LexLeReflexive | build_ebook_v2.py:143 | string order is reflexive |
| Ordering.LexLeTotal | build_ebook_v2.py:143 | any two strings are ordered one way or the other |
| Ordering.LexLeAntisymmetric | build_ebook_v2.py:143 | strings each at most the other are equal |
| Ordering.LexLeTransitive | build_ebook_v2.py:143 | string order is transitive |
| Ordering.InsertPermutes | build_ebook_v2.py:143 | insertion adds exactly the one fragment |
| Ordering.InsertSorted | build_ebook_v2.py:143 | insertion keeps a list sorted by prefix |
| Ordering.InsertStable | build_ebook_v2.py:143 | insertion puts the fragment before the others with the same prefix |
| Ordering.SortPermutes | build_ebook_v2.py:143 | the sorted list is a permutation of the walk's output |
| Ordering.SortSorts | build_ebook_v2.py:143 | the sorted list is non-decreasing by prefix |
| Ordering.SortStable | build_ebook_v2.py:143 | fragments sharing a prefix keep their walk order |
| Ordering.WithPrefixMembers | build_ebook_v2.py:143 | the fragments selected for a prefix come from the list and have that prefix |
| Ordering.WithPrefixEmpty | build_ebook_v2.py:143 | nothing is selected for a prefix no fragment has |
| Ordering.SortedUnique | build_ebook_v2.py:143 | two sorted lists that agree on the fragments of every prefix are equal |
| Ordering.SortIsTheStableSort | build_ebook_v2.py:143 | any sorted list that keeps the input order within each prefix is the sort's result |
| Ordering.SortedIsFixed | build_ebook_v2.py:143 | a list already in prefix order is left as it is |
| Ordering.WithPrefixCounts | build_ebook_v2.py:143 | the fragments selected for a prefix are counted as often as in the list when they have that prefix, and not at all otherwise |
| Ordering.WithPrefixAtMostOne | build_ebook_v2.py:143 | with distinct prefixes, at most one fragment has any one prefix |
| Ordering.SortIgnoresInputOrder | build_ebook_v2.py:143 | with distinct prefixes, the sorted list depends only on which fragments there are, not on the order the walk found them |
| Rewriting.ReplaceAll | build_ebook_v2.py:152-156 | `re.sub` with a literal pattern; characterised by `Rewriting.ReplaceAllFirst`, `Rewriting.ReplaceAllSkip`, `Rewriting.ReplaceAllSplit` and `Rewriting.ReplaceAllNoOccurrence` |
| Rewriting.OccursAtSuffix | build_ebook_v2.py:152-156 | occurrences in a suffix are occurrences in the whole text, shifted |
| Rewriting.ReplaceAllNoOccurrence | build_ebook_v2.py:152-156 | text without the pattern is left unchanged |
| Rewriting.ReplaceAllSkip | build_ebook_v2.py:152-156 | a stretch where no occurrence starts is copied, and scanning goes on after it |
| Rewriting.ReplaceAllFirst | build_ebook_v2.py:152-156 | the leftmost occurrence is replaced and scanning resumes right after it, so matches never overlap |
| Rewriting.ReplaceAllSkipTo | build_ebook_v2.py:152-156 | the text before the first possible occurrence is copied |
| Rewriting.ReplaceAllMatchAt | build_ebook_v2.py:152-156 | an occurrence where scanning stands is replaced there |
| Rewriting.NotOccursMissing | build_ebook_v2.py:152-167 | a pattern holding a character the text lacks does not occur in it |
| Rewriting.NotOccursPastHead | build_ebook_v2.py:152-167 | a pattern that does not match at the start, and whose first character appears nowhere later, does not occur |
| Rewriting.ReplaceAllAvoid | build_ebook_v2.py:152-156 | a prefix free of the pattern's first character is copied |
| Rewriting.ReplaceAllAtStart | build_ebook_v2.py:152-156 | a pattern at the very start is replaced |
| Rewriting.ReplaceAllNotAtHead | build_ebook_v2.py:152-156 | a character at which no occurrence starts is copied and scanning goes on after it |
| Rewriting.NoStraddleAtCut | build_ebook_v2.py:152-156 | when the first character after a cut occurs in the pattern only at its head, no occurrence runs across the cut |
| Rewriting.ReplaceAllSplit | build_ebook_v2.py:152-156 | when no occurrence runs across a cut, the text on each side of it is rewritten on its own |
| Rewriting.NoStraddleShift | build_ebook_v2.py:152-156 | dropping a prefix of the left side keeps the cut free of occurrences running across it |
| Rewriting.ReplaceAllCutAtBracket | build_ebook_v2.py:152-156 | a pattern holding no `]` after its head is replaced on each side of a `]` independently |
| Rewriting.ReplaceAllKeepsOpening | build_ebook_v2.py:152-156 | a link opening at which the pattern does not start, and which holds its first character only at its head, is copied |
| Rewriting.ReplaceAllOnce | build_ebook_v2.py:152-156 | a single occurrence, with the pattern's first character nowhere else, is replaced and the rest kept |
| Rewriting.ReplaceAllSingleChar | build_ebook_v2.py:162 | `re.sub('_', '-', ...)` is character-for-character replacement |
| Rewriting.CopiedRun | build_ebook_v2.py:152-156 | a run of output holding no replacement character is copied input |
| Rewriting.ReplaceAllComplete | build_ebook_v2.py:153-156 | when a replacement can neither contain nor complete a match, no occurrence of the pattern is left |
| Rewriting.RasterisedHasNoSvg | build_ebook_v2.py:153 | after the second substitution no `.svg` is left, in title or content |
| Rewriting.AbsoluteHasNoRootLink | build_ebook_v2.py:156 | after the third substitution no `](/` is left |
| Rewriting.RasterNoRescan | build_ebook_v2.py:153 | `.png` can neither contain nor complete a `.svg` |
| Rewriting.SiteLinkNoRescan | build_ebook_v2.py:156 | the site link can neither contain nor complete a `](/` |
| Rewriting.SiteLinkTail | build_ebook_v2.py:156 | the site link holds no `]` after its first character |
| Rewriting.LastSegment | build_ebook_v2.py:163 | `split('/')[-1]`; characterised by `Rewriting.LastSegmentIsLastPart` and `Rewriting.LastSegmentIsTail` |
| Rewriting.Normalise | build_ebook_v2.py:161-162 | `lower()` followed by `re.sub('_', '-', ...)`; characterised by `Rewriting.NormaliseAt`, `Rewriting.NormaliseIs` and `Rewriting.NormaliseConcat` |
| Rewriting.Anchor | build_ebook_v2.py:160-163 | the anchor a reference target resolves to; characterised by `Rewriting.AnchorOfPath`, `Rewriting.AnchorIsNormalisedLastSegment` and `Rewriting.AnchorIsNormalisedTail` |
| Rewriting.Link | build_ebook_v2.py:165 | the replacement `](#anchor)` that `repl` returns; characterised by `Rewriting.ChapterRefResolves` |
| Rewriting.RefStart | build_ebook_v2.py:167 | a match of `\]\(!([^)]+)\)` starts here: `](!`, then a non-empty run without `)`, then a `)`; used by `Rewriting.ResolveRefsFirst` and `Rewriting.RefStartPrefix` |
| Rewriting.ResolveRefs | build_ebook_v2.py:159-167 | the fourth substitution, with `repl`; characterised by `Rewriting.ResolveRefsFirst`, `Rewriting.ResolveRefsSkip`, `Rewriting.ResolveRefsUnclosedTail` and `Rewriting.EmptyTargetKept` |
| Rewriting.LinkPasses | build_ebook_v2.py:152-156 | the first three substitutions in order; characterised by `Rewriting.ImageLinkPasses` and `Rewriting.OtherLinkPasses` |
| Rewriting.Rewrite | build_ebook_v2.py:152-167 | all four substitutions in order; characterised by `Rewriting.RewriteUnchanged`, `Rewriting.ImageLinkPasses`, `Rewriting.OtherLinkPasses` and `Rewriting.RewriteTrailingRef` |
| Rewriting.LastSegmentIsLastPart | build_ebook_v2.py:163 | the last segment is `split('/')[-1]` |
| Rewriting.LastSegmentIsTail | build_ebook_v2.py:163 | the last segment is a suffix of the path holding no `/`, and is the whole path or follows a `/` |
| Rewriting.LastSegmentIsSuffix | build_ebook_v2.py:163 | the last segment is a suffix of the path |
| Rewriting.LastSegmentHasNoSlash | build_ebook_v2.py:163 | the last segment holds no `/` |
| Rewriting.LastSegmentAfterSeparator | build_ebook_v2.py:163 | the last segment is the whole path or follows a `/` |
| Rewriting.LastSegmentAfterSlash | build_ebook_v2.py:163 | a path ending in `/name`, with `name` free of `/`, has `name` as its last segment |
| Rewriting.AnchorOfPath | build_ebook_v2.py:160-163 | the anchor of `dirs/name` is `name` lower-cased with `_` turned into `-` |
| Rewriting.AnchorOfRootPath | build_ebook_v2.py:160-163 | the anchor of `/name` is `name` lower-cased with `_` turned into `-` |
| Rewriting.NormaliseConcat | build_ebook_v2.py:161-162 | lower-casing and `_` to `-` distribute over concatenation |
| Rewriting.NormaliseAt | build_ebook_v2.py:161-162 | normalising keeps the length and acts on each character on its own: `_` becomes `-` and an ASCII capital its lower-case letter |
| Rewriting.NormaliseIs | build_ebook_v2.py:161-162 | a string of the same length with `-` wherever the target has `_`, and elsewhere the target's character lower-cased, is the normalised target |
| Rewriting.NormaliseSlashes | build_ebook_v2.py:161-162 | lower-casing and `_` to `-` keep the length and neither create nor remove a `/` |
| Rewriting.AnchorIsNormalisedLastSegment | build_ebook_v2.py:160-163 | normalising and then taking the last segment is the same as taking the last segment and then normalising it |
| Rewriting.AnchorIsNormalisedTail | build_ebook_v2.py:160-165 | an anchor is a tail of the normalised target and holds no `/`, no `_` and no capital |
| Rewriting.ResolveRefsSkip | build_ebook_v2.py:167 | a stretch where no reference starts is copied, and scanning goes on after it |
| Rewriting.ResolveRefsCopy | build_ebook_v2.py:167 | where no reference starts, one character is copied |
| Rewriting.ResolveRefsAvoid | build_ebook_v2.py:167 | a prefix holding no `]` is copied |
| Rewriting.ResolveRefsNoMatch | build_ebook_v2.py:167 | text where no reference starts anywhere is left unchanged |
| Rewriting.ResolveRefsNoMarker | build_ebook_v2.py:167 | text holding no `](!` is left unchanged |
| Rewriting.ResolveRefsUnclosed | build_ebook_v2.py:167 | text holding no `)` is left unchanged: a `](!` that is never closed is not a reference |
| Rewriting.ResolveRefsUnclosedTail | build_ebook_v2.py:167 | a tail holding no `)` is copied whatever precedes it, so a `](!` that it would have to close is not a reference |
| Rewriting.HeadStep | build_ebook_v2.py:167 | one step of the scan emits the same text and resumes at the same place whether or not a tail without `)` follows |
| Rewriting.CopyExtended | build_ebook_v2.py:167 | where no reference starts in front of a tail, the first character is copied |
| Rewriting.RefAtHead | build_ebook_v2.py:159-167 | a reference at the head is resolved to the link of its target, and scanning resumes after its `)` |
| Rewriting.RefAtHeadTail | build_ebook_v2.py:159-167 | a reference at the head that closes before a tail is resolved the same way with the tail after it |
| Rewriting.RefStartPrefix | build_ebook_v2.py:167 | a tail without `)` changes neither whether a reference starts in front of it nor where that reference ends |
| Rewriting.SkipShift | build_ebook_v2.py:167 | a stretch where no reference starts stays so after dropping its first character |
| Rewriting.ResolveRefsFirst | build_ebook_v2.py:159-167 | the first reference `](!target)` becomes `](#anchor)` and scanning resumes after its `)` |
| Rewriting.ResolveRefsHere | build_ebook_v2.py:159-167 | a reference at the very start is resolved and scanning resumes after its `)` |
| Rewriting.EmptyTargetKept | build_ebook_v2.py:167 | `](!)` has an empty target and is copied, not resolved |
| Rewriting.ChapterRefResolves | build_ebook_v2.py:159-167 | `](!dirs/name)` resolves to the anchor of `name` alone |
| Rewriting.SetupAnchorExample | build_ebook_v2.py:159-165 | `/2_Setup` has the anchor `2-setup` |
| Rewriting.SomeChapterExample | build_ebook_v2.py:159-165 | `/path/to/Some_Chapter` has the anchor `some-chapter` |
| Rewriting.RewriteUnchanged | build_ebook_v2.py:152-167 | text holding none of the four patterns passes all four substitutions unchanged |
| Rewriting.ImageLinkPasses | build_ebook_v2.py:152-156 | in any text, with anything before and after it, a root-relative image link `](/images/` becomes `](images/` and is not made absolute; the text before and after it goes through the first three substitutions on its own |
| Rewriting.ImagesPassOnLinkIn | build_ebook_v2.py:152 | the first pass turns `a](/images/b` into `a'](images/b'`, rewriting `a` and `b` on their own |
| Rewriting.SvgPassOnRelativeLink | build_ebook_v2.py:153 | the second pass keeps `](images/` and rewrites the text on either side of it on its own |
| Rewriting.RootPassOnRelativeLink | build_ebook_v2.py:156 | the third pass keeps `](images/` and rewrites the text on either side of it on its own |
| Rewriting.OtherLinkPasses | build_ebook_v2.py:152-156 | in any text, with anything before and after it, a root-relative link `](/` not followed by `images/` becomes the site link; the text before and after it goes through the first three substitutions on its own |
| Rewriting.ImagesPassOnOtherLink | build_ebook_v2.py:152 | the first pass keeps a `](/` not followed by `images/` and rewrites the text on either side of it on its own |
| Rewriting.ImagesDirNotBefore | build_ebook_v2.py:152 | `/` in front of a text not starting with `images/` does not start `/images/` |
| Rewriting.SvgPassOnRootLink | build_ebook_v2.py:153 | the second pass keeps `](/` and rewrites the text on either side of it on its own |
| Rewriting.RootPassOnRootLink | build_ebook_v2.py:156 | the third pass turns `](/` into the site link and rewrites the text on either side of it on its own |
| Rewriting.ImageLinkStaysRelative | build_ebook_v2.py:152-156 | for a name holding no `/`, `.` or `]`: `](/images/name.svg)` becomes `](images/name.png)` after all four passes; the single-link case of `Rewriting.ImageLinkPasses` |
| Rewriting.LatePassesKeep | build_ebook_v2.py:156-167 | a link whose target starts with neither `/` nor `!`, and which holds no other `]`, passes the last two substitutions unchanged |
| Rewriting.ImagesPassOnImageLink | build_ebook_v2.py:152 | for a name holding no `/`: the first pass turns `](/images/name.svg)` into `](images/name.svg)` |
| Rewriting.SvgPassOnImageLink | build_ebook_v2.py:153 | for a name holding no `.`: the second pass turns `](images/name.svg)` into `](images/name.png)` |
| Rewriting.OtherLinkBecomesAbsolute | build_ebook_v2.py:152-167 | for a path holding no `]`, with no `/images/` in `/path)` and no `.svg` in `path)`: `](/path)` becomes the site link followed by `path)` after all four passes |
| Rewriting.LinkKeptByRefPass | build_ebook_v2.py:167 | a link opening other than `](!` followed by text without `]` is left alone by the reference pass |
| Rewriting.OtherLinkKeptByImagePasses | build_ebook_v2.py:152-153 | a link without `/images/` and `.svg` passes the first two substitutions unchanged |
| Rewriting.OtherLinkAbsolutized | build_ebook_v2.py:156 | for a path holding no `]`: the third pass turns `](/path)` into the site link followed by `path)` |
| Rewriting.RewriteTrailingRef | build_ebook_v2.py:152-167 | for `a` holding no `]`, `name` holding no `]`, `)` or `/`, and no `/images/` or `.svg` in the whole text: `a](!/name)` becomes `a](#anchor)`, the anchor being `name` normalised |
| Rewriting.RefPassOnTrailingRef | build_ebook_v2.py:159-167 | for `a` holding no `]` and `name` holding no `)` or `/`: the reference pass turns `a](!/name)` into `a](#anchor)`, the anchor being `name` normalised |
| Rewriting.RootPassOnRefOpening | build_ebook_v2.py:156 | for every `a` and `b`, the third pass keeps `](!` in `a](!b` and rewrites `a` and `b` on their own |
| Rewriting.RootLinkPassSkipsRef | build_ebook_v2.py:156 | for `a` and `name` holding no `]`: the third pass leaves `a](!/name)` unchanged |
| Assembly.Heading | build_ebook_v2.py:149 | `'# ' + title + '\n\n'`; characterised by `Assembly.SectionShape` and `Assembly.SectionUnchanged` |
| Assembly.Section | build_ebook_v2.py:149-169 | one fragment's rewritten heading and content followed by a blank line; characterised by `Assembly.SectionShape` and `Assembly.SectionUnchanged` |
| Assembly.Document | build_ebook_v2.py:147-169 | the concatenation of the sections, built from `Assembly.Map` and `Assembly.Concat`; characterised by `Assembly.DocumentAppend`, `Assembly.DocumentFirst` and `Assembly.DocumentStep` |
| Assembly.Map | build_ebook_v2.py:147-149 | one section per fragment of `md_files`, in order: as many elements as the input, the i-th the function applied to the i-th |
| Assembly.Concat | build_ebook_v2.py:145-169 | `temp_markdown += ...` over the sections in order; characterised by `Assembly.ConcatAppend` |
| Assembly.MapAppend | build_ebook_v2.py:147-149 | mapping over two runs gives the two mapped runs one after the other |
| Assembly.ConcatAppend | build_ebook_v2.py:169 | concatenating two runs of strings gives the two concatenations one after the other |
| Assembly.DocumentAppend | build_ebook_v2.py:147-169 | the document of two runs of fragments is the two documents one after the other |
| Assembly.DocumentFirst | build_ebook_v2.py:147-169 | the document starts with the first fragment's section |
| Assembly.DocumentStep | build_ebook_v2.py:169 | one more fragment adds its section at the end |
| Assembly.SectionUnchanged | build_ebook_v2.py:149-169 | a section whose heading and content hold none of the four patterns is `# title`, a blank line, the content and a blank line |
| Assembly.SectionShape | build_ebook_v2.py:149-169 | every section starts with `# ` and ends with a blank line |
| Assembly.GenerateMarkdownFromSources | build_ebook_v2.py:142-169 | the returned document is the sections of the walk's fragments, sorted by prefix, one after the other |
| Assembly.DocumentOfTree | build_ebook_v2.py:142-143 | the document has one section per file of the tree, the sorted fragments are a sorted permutation of the walk's, and fragments sharing a prefix keep their walk order |
| Assembly.DocumentIgnoresListingOrder | build_ebook_v2.py:142-169 | when no two files share a prefix, the document does not depend on the order the walk found them |
| Scenario.ExampleDocument | build_ebook_v2.py:142-204 | the example tree yields `# Introduction`, `Hello [there](#2-setup)`, then `# Install`, `Install steps.`, each section ending in a blank line |
| Scenario.ExampleFragments | build_ebook_v2.py:187-202 | the walk of the example finds the introduction at depth 0 with prefix `1.` and the install chapter at depth 1 with prefix `2.1.` |
| Scenario.WalkOfTwo | build_ebook_v2.py:187-202 | the walk of a file followed by a directory holding one file |
| Scenario.NameParts | build_ebook_v2.py:188-198 | a stem `token_word` has prefix `parent + token + "."` and title `word` |
| Scenario.ExampleNames | build_ebook_v2.py:188-198 | `1_Introduction`, `2_Setup` and `1_Install` (below `2_Setup`) have prefixes `1.`, `2.` and `2.1.`, and the first and last have titles `Introduction` and `Install` |
| Scenario.SortOfTwo | build_ebook_v2.py:143 | two fragments already in prefix order stay in that order |
| Scenario.DocumentOfTwo | build_ebook_v2.py:147-169 | the document of two fragments is their two sections |
| Scenario.TrailingRefSection | build_ebook_v2.py:149-169 | for a section whose heading and content are `a](!/name)`, with no `g`, `v` or `]` in `a` or `name` and no `)` or `/` in `name`: the section is `a](#anchor)` and a blank line, the anchor being `name` normalised |
| Scenario.PlainText | build_ebook_v2.py:152-167 | text without `/`, `v` and `]` holds none of the four patterns |

## Left out

- Logging (`VTLogger`, build_ebook_v2.py:8-42, and the `log.info` calls): output only, with no effect on the document.
- `build_pdf_book` and `build_epub_book` (lines 71-104): calls out to pandoc.
- `convert_svg_to_png` (lines 106-132): file-system work whose converter call is commented out.
- The `__main__` driver and the clean-up of the temporary file (lines 210-236).
- Reading and writing files (lines 173-174 and 200-201): each file's content is part of the in-memory tree, and the document is returned as a string. Read failures and encoding errors are therefore not modelled.
- `pathlib` stem computation: each entry's stem is given as it is, with no suffix stripping.
- `iterdir` order: a directory's children are an arbitrary sequence, and every lemma holds for every order.
- Every non-directory entry is read as a fragment, as in the source; there is no `.md` filter to model.
- Python's regular-expression engine: only the four fixed patterns are modelled, each as its own scanner.
- Strings.LowerAscii: lower-cases only `A`-`Z`, not the rest of Unicode as `str.lower` does.
- `__repr__` and `__str__` of `VTEMarkdownFile` (lines 53-63): string formatting with no logic.
- Walk.Fragment: `depth` is an `int`, as its constructor argument is, although the attribute is annotated `str` at line 49.
- Assembly.DocumentIgnoresListingOrder: stated for two listings whose walks yield the same fragments in some order, not for two trees directly.
- Rewriting.RasterisedHasNoSvg: states that no `.svg` is left after the second substitution, not after the fourth. The third cannot create one, but the fourth can: `](!/A.SVG)` becomes `](#a.svg)`.
- Rewriting.ImageLinkPasses and Rewriting.OtherLinkPasses: the text before and after the link is stated to go through the first three substitutions on its own, not also through the fourth. An unclosed `](!` before the link can become a reference that the link's own `)` closes, so the fourth substitution does not split at the link in general; `Rewriting.ResolveRefsUnclosedTail` states what it does to a tail without `)`.
- ImageLinkStaysRelative: stated for a name holding no `/`, `.` or `]`. A name such as `a.b/c` is covered only by the general Rewriting.ImageLinkPasses, which leaves the rest of the name to the passes and does not evaluate them.
- ImagesPassOnImageLink: stated for a name holding no `/`. The general case is Rewriting.ImagesPassOnLinkIn, for any text before and after `](/images/`.
- SvgPassOnImageLink: stated for a name holding no `.`. The general case is Rewriting.SvgPassOnRelativeLink, for any text before and after `](images/`.
- OtherLinkBecomesAbsolute: stated for a path holding no `]`, `.svg` or `/images/`, rather than for any other root-relative link. The general case is Rewriting.OtherLinkPasses, for any text before the link and any text after `](/` not starting with `images/`.
- OtherLinkAbsolutized: stated for a path holding no `]`. The general case is Rewriting.RootPassOnRootLink.
- RewriteTrailingRef: stated for text before the reference holding no `]`, and for a name holding no `]`, `)` or `/`, besides no `/images/` or `.svg` in the text.
- RefPassOnTrailingRef: stated for text before the reference holding no `]`, and for a name holding no `)` or `/`. A `]` before the reference can start a match of its own. Rewriting.ResolveRefsFirst covers text before the first reference in general.
- TrailingRefSection: stated for a section whose text before the reference holds no `g`, `v` or `]`, and whose name holds none of these nor `)` or `/`, so that none of the four patterns occurs outside the reference. The general facts it instantiates are Rewriting.RewriteTrailingRef and Scenario.PlainText.
- RootLinkPassSkipsRef: stated for a text ending in the reference, with no `]` in the text before it or in the name, so that the whole text is unchanged. The general case is Rewriting.RootPassOnRefOpening, for any text on either side of `](!`.
