# Yun Blog post layer, modelled in Dafny

Yun Blog is a Next.js blog whose posts are markdown files with YAML front
matter. This project models the logic between the directory listing and
the rendered pages:

- how `getAllPostsMeta` turns `.md` files into post records (slug from the
  file name, `tags || []`, reading time) and sorts them newest first;
- `slugify`, the slug function used for categories and tags;
- `calculateReadingTime`;
- the per-category and per-tag counts of `getAllCategories` and
  `getAllTags`, which fill a JavaScript `Map` in insertion order;
- the queries `getPostsByCategory`, `getPostsByTag`, `searchPosts` and
  `getRelatedPosts`;
- `paginatePosts`;
- the page bar of the `Pagination` component: the page-number window,
  the `return null` for a single page, and the previous, number and next
  links, together with how the blog index reads `?page=` back;
- the tag links of `BlogCard`, which disagree with `slugify` (see
  Findings).

The post list is passed in; reading the directory and parsing front
matter are not modelled.

Files:

- `wrappers.dfy`: `Option`.
- `text.dfy`: character classes (`\s` as JavaScript defines it, ASCII
  `\w`), ASCII `toLowerCase`, `includes`, `endsWith`, `trim`, string `<`,
  and decimal printing and parsing of page numbers.
- `seqs.dfy`: `filter`, `slice` with negative indices, and Map keys in
  insertion order (`Distinct`).
- `slug.dfy`: `slugify`.
- `reading_time.dfy`: `calculateReadingTime`.
- `blog_types.dfy`: the records of `src/types/blog.ts` and a parsed post
  file.
- `blog.dfy`: the rest of `src/lib/blog.ts`.
- `pagination.dfy`: `Pagination.tsx` and the `page` parameter.
- `blog_card.dfy`: the tag links of `BlogCard.tsx`.

How the model is written:

- `getAllCategories` and `getAllTags` are methods with `while` loops. A
  keys sequence and a counts map stand for the `Map`, and one `Record`
  step stands for `map.set(name, (map.get(name) || 0) + 1)`.
- `getPageNumbers` is a method that pushes onto a local sequence. It is
  proved equal to the function `PageWindow`.
- Everything else is a function, as in the source.

JavaScript semantics that are written out:

- `Math.ceil(a / b)` is integer ceiling division.
- `slice` with negative bounds counts from the end.
- `"".split(/\s+/)` gives one piece, so an empty post still takes one
  minute to read.
- A page number the URL spells as a negative number reaches
  `paginatePosts` unchanged, and the `slice` then takes posts counted back
  from the end of the list. The contract of `PaginatePosts` states which
  posts, and `NegativePageCountsFromEnd` shows an instance. From such a
  page the "next" link can lead to an empty page
  (`NextFromNegativePageCanBeEmpty`).

## Model

| member | source | states |
|---|---|---|
| Blog.SlugOfFileName | src/lib/blog.ts:17-19 | the slug followed by `.md` is the file name |
| Blog.PostFromFile | src/lib/blog.ts:24-33 | the record's slug plus `.md` is its file's name; its reading time is at least one minute |
| Blog.MarkdownFiles | src/lib/blog.ts:16-17 | only `.md` files of the listing are loaded |
| Blog.InsertByDate | src/lib/blog.ts:37 | one insertion step adds exactly the inserted post to the multiset of posts |
| Blog.InsertKeepsNewestFirst | src/lib/blog.ts:37 | inserting into a newest-first list keeps it newest first |
| Blog.SortByDate | src/lib/blog.ts:37 | the date sort is a permutation, and no date is `<` the date after it |
| Blog.NewestFirstAllPairs | src/lib/blog.ts:37 | in the sorted list no date is `<` any later date |
| Text.LexLessIrreflexive | src/lib/blog.ts:37 | no string is `<` itself |
| Text.LexLessAsymmetric | src/lib/blog.ts:37 | `a < b` and `b < a` never both hold |
| Text.LexLessTotal | src/lib/blog.ts:37 | of two different strings one is `<` the other |
| Text.LexLessTransitive | src/lib/blog.ts:37 | `a < b` and `b < c` give `a < c` |
| Text.NotLessTransitive | src/lib/blog.ts:37 | "not `<`" is transitive, so the comparator's order is a total preorder |
| Blog.GetAllPostsMeta | src/lib/blog.ts:14-38 | the records are exactly those of the `.md` files, as a multiset, newest first |
| Blog.PostComesFromFile | src/lib/blog.ts:16-34 | each loaded record comes from a `.md` file of the listing whose name is its slug plus `.md` |
| Blog.FileGivesPost | src/lib/blog.ts:16-34 | each `.md` file of the listing yields its record |
| Blog.Record | src/lib/blog.ts:78-79 | one `get`/`set` counts one more occurrence; a new name becomes the last key |
| Blog.GetAllCategories | src/lib/blog.ts:73-87 | one entry per distinct category in order of first appearance, with its slug and the number of posts in it |
| Blog.CountInto | src/lib/blog.ts:95-98 | counting a post's tags into the map adds each of them once per occurrence |
| Blog.GetAllTags | src/lib/blog.ts:90-106 | one entry per distinct tag in order of first appearance, with its slug and its number of occurrences over all posts |
| Seqs.Distinct | src/lib/blog.ts:82 | the Map's keys: each name once, and exactly the names that occur |
| Seqs.DistinctInFirstOccurrenceOrder | src/lib/blog.ts:82 | the keys appear in the order in which the names first occur |
| Blog.CategoryCountsSumToPosts | src/lib/blog.ts:77-80 | the category counts add up to the number of posts |
| Blog.ListedNamesOccur | src/lib/blog.ts:82-86 | every listed category or tag has a count of at least one |
| Blog.TagCountsSumToTagTotal | src/lib/blog.ts:94-99 | the tag counts add up to the total length of the `tags` lists |
| Blog.TagCountIsPerPostSum | src/lib/blog.ts:94-99 | a tag's count is the sum of its occurrences per post, so a tag listed twice in one post counts twice |
| Blog.GetPostsByCategory | src/lib/blog.ts:109-112 | the result is an ordered subsequence that holds each post with that category slug as often as the list does, and no other post |
| Blog.GetPostsByTag | src/lib/blog.ts:115-120 | the result is an ordered subsequence that holds each post with a tag of that slug as often as the list does, and no other post |
| Blog.SearchPosts | src/lib/blog.ts:123-133 | the result is an ordered subsequence that holds each post whose lower-cased title, excerpt, some tag or category contains the lower-cased query, and no other post |
| Blog.SearchEmptyQueryReturnsAll | src/lib/blog.ts:125-132 | the empty query returns every post in order |
| Blog.SearchIgnoresQueryCase | src/lib/blog.ts:125 | lower-casing the query first changes nothing |
| Blog.NonSlugCategoryMatchesNothing | src/lib/blog.ts:111 | a category argument that is not a slug (such as `技术`) matches no post |
| Blog.NonSlugTagMatchesNothing | src/lib/blog.ts:117-119 | a tag argument that is not a slug matches no post |
| Blog.PostListedUnderItsTags | src/lib/blog.ts:117-119 | a post is found under the slug of each of its tags |
| Blog.CategoryCountMatchesPage | src/lib/blog.ts:73-87 | the posts found under a category's slug are at least its count, and exactly its count when no other category name has that slug |
| Blog.FindBySlug | src/lib/blog.ts:138 | the first post with the slug, or none exactly when no post has it |
| Blog.RelatedCandidates | src/lib/blog.ts:143-148 | the candidates are the ordered subsequence of other posts that share the category or a tag |
| Blog.GetRelatedPosts | src/lib/blog.ts:136-152 | no result for an unknown slug; otherwise a prefix of the candidates, of length `min(limit, candidates)` for `limit >= 0`, with no post of the current slug and every post related |
| Seqs.JsSlice | src/lib/blog.ts:149 | `slice`: the length and the elements taken, with negative bounds counted from the end |
| Blog.PaginatePosts | src/lib/blog.ts:171-186 | for `page >= 1` the posts of positions `(page-1)*n` up to `page*n`, clipped to the list; nothing on page 0; for `page < 0` the posts from `len + (page-1)*n` up to `len + page*n`, each bound clamped at 0, as `slice` counts negative bounds from the end; `totalPages` is the ceiling of posts over `n`; `hasNextPage` exactly before the last page; `hasPrevPage` exactly after page 1 |
| Blog.NextPageIffBeforeLast | src/lib/blog.ts:180-182 | `page * n < length` holds exactly when `page < totalPages` |
| Blog.PostOnItsPage | src/lib/blog.ts:171-174 | post `k` is item `k % n` of page `k / n + 1`, and that page exists |
| Blog.PastLastPageIsEmpty | src/lib/blog.ts:171-174 | a page past the last one is empty |
| Blog.NextPageIsNotEmpty | src/lib/blog.ts:172-182 | from a page `>= 1`, when `hasNextPage` holds, the next page has posts |
| Blog.NextFromNegativePageCanBeEmpty | src/lib/blog.ts:172-182 | from a negative page it can fail: with twelve posts page -3 has `hasNextPage`, and page -2 is empty |
| Blog.PagesCoverPosts | src/lib/blog.ts:171-180 | pages 1 to `totalPages`, concatenated, give back the list |
| Blog.NegativePageCountsFromEnd | src/lib/blog.ts:172-174 | with twelve posts, page -1 shows the posts of page 1 |
| Slug.Slugify | src/lib/blog.ts:162-168 | the slug has only `a-z`, `0-9` and `-`, no `--`, and no `-` at either end |
| Slug.SlugifyKeepsAlnums | src/lib/blog.ts:162-168 | the slug's letters and digits are those of the lower-cased text, in order |
| Slug.SlugWithoutAlnumIsEmpty | src/lib/blog.ts:162-168 | text with no ASCII letter or digit has the empty slug |
| Slug.TechCategorySlugIsEmpty | src/lib/blog.ts:162-168 | the slug of `技术` is empty |
| Slug.SlugFixed | src/lib/blog.ts:162-168 | a slug is its own slug |
| Slug.SlugifyIdempotent | src/lib/blog.ts:162-168 | `slugify(slugify(s)) == slugify(s)` |
| Slug.StripDisallowed | src/lib/blog.ts:165 | every character left is a word character, white space or `-` and comes from the text |
| Slug.StripDisallowedKeepsTheRest | src/lib/blog.ts:165 | the characters matched by `[\w\s-]` all stay, in order and as often as they occur, and nothing else does |
| Slug.TrimDashes | src/lib/blog.ts:167 | the result is a contiguous piece of the string with only dashes before and after it; it neither starts nor ends with `-`, and a string that does neither is left unchanged |
| Slug.SlugifyJoinsWithDash | src/lib/blog.ts:162-168 | two non-empty slugs joined by a run of white space, `_` or `-` slugify to the two joined by one `-` |
| Slug.HelloWorldSlug | src/lib/blog.ts:162-168 | `slugify("Hello World") == "hello-world"` |
| Slug.CollapseRuns | src/lib/blog.ts:166 | a run replacement leaves only dashes and characters outside the class, no longer than its input, and no `--` when `-` is in the class |
| Slug.CollapseWithoutSeparator | src/lib/blog.ts:166 | a string with no character of the class comes through unchanged |
| Slug.CollapseRunBetween | src/lib/blog.ts:166 | one maximal run of class characters between `a` and `b` becomes exactly one `-` between the collapsed `a` and the collapsed `b`; with CollapseWithoutSeparator this fixes the result for every input |
| Slug.CollapseKeeps | src/lib/blog.ts:166 | replacing runs keeps the other characters, in order |
| Text.LowerIdempotent | src/lib/blog.ts:164 | lower-casing twice is lower-casing once |
| ReadingTime.CalculateReadingTime | src/lib/blog.ts:155-159 | at least one minute, and the ceiling of the number of pieces over 200 |
| Text.Trim | src/lib/blog.ts:157 | the trimmed text neither starts nor ends with white space, and text that does neither is left unchanged |
| Text.TrimKeepsMiddle | src/lib/blog.ts:157 | the trimmed text is a contiguous piece of the text with only white space before and after it |
| ReadingTime.SplitOnSpaces | src/lib/blog.ts:157 | `split(/\s+/)` yields at least one piece, and no piece holds white space |
| ReadingTime.TrimmedPiecesAreWords | src/lib/blog.ts:157 | the trimmed text splits into as many pieces as it has words, and into one piece when it has none |
| ReadingTime.ReadingTimeCountsWords | src/lib/blog.ts:155-159 | the reading time is the word count over 200, rounded up, and 1 for text without words |
| Text.IntToDecimalRoundTrip | src/components/ui/Pagination.tsx:81 | a printed page number parses back to itself |
| Text.ParseInt | src/app/blog/page.tsx:37 | a number exactly for an optional `-` followed by one or more decimal digits, whose value those digits spell |
| Pagination.PageParam | src/app/blog/page.tsx:37 | a `?page=` value exactly when the link starts with `basePath?page=`, and that prefix followed by the value is the link |
| Pagination.Range | src/components/ui/Pagination.tsx:20-22 | the pages from `lo` to `hi`, in order |
| Pagination.PushRange | src/components/ui/Pagination.tsx:20-22 | the counted `for` loop appends exactly those pages |
| Pagination.GetPageNumbers | src/components/ui/Pagination.tsx:15-48 | the page list equals the window: all pages up to five; otherwise `1 2 3 4 … t`, `1 … t-3 … t`, or `1 … c-1 c c+1 … t` |
| Pagination.PageWindow | src/components/ui/Pagination.tsx:15-48 | at most seven entries; when there is a page, the first entry is page 1 and the last is the last page |
| Pagination.SmallWindowListsAllPages | src/components/ui/Pagination.tsx:19-22 | with at most five pages, the list is 1 to `totalPages` |
| Pagination.LargeWindowShape | src/components/ui/Pagination.tsx:23-45 | with more than five pages, there are six or seven entries, from page 1 to the last page |
| Pagination.WindowIsOrderedAndMarked | src/components/ui/Pagination.tsx:15-48 | the numbers increase strictly and lie in `[1, totalPages]`; neighbouring numbers are consecutive; each `...` hides at least one page |
| Pagination.WindowShowsCurrentPage | src/components/ui/Pagination.tsx:15-48 | an existing current page is in the list |
| Pagination.PageHref | src/components/ui/Pagination.tsx:81 | the number link starts with `basePath` and carries `?page=p` exactly when `p > 1` |
| Pagination.PrevHref | src/components/ui/Pagination.tsx:60 | the previous link starts with `basePath` and carries `?page=c-1` exactly when `c > 2` |
| Pagination.NextHref | src/components/ui/Pagination.tsx:97 | the next link starts with `basePath` and always carries `?page=c+1` |
| Pagination.PrevLinksToPageBefore | src/components/ui/Pagination.tsx:60 | the previous link is the number link of the page before |
| Pagination.NextLinksToPageAfter | src/components/ui/Pagination.tsx:81-97 | the next link is the number link of the page after exactly when the current page is at least 1 |
| Pagination.RequestedPage | src/app/blog/page.tsx:37 | `Number(page) \|\| 1` is never page 0; page 1 without a parameter; a parameter spelling a non-zero number gives that number |
| Pagination.NonZeroPageParamPassesThrough | src/app/blog/page.tsx:37 | the printed form of any non-zero page number, negative ones included, is requested as that number |
| Pagination.PageLinkRoundTrip | src/app/blog/page.tsx:37 | following the link of page `p >= 1` requests page `p` |
| Pagination.NeighbourLinksRoundTrip | src/components/ui/Pagination.tsx:60-97 | the next link requests `c+1` when `c >= 1`, and the previous link requests `c-1` when `c >= 2` |
| Pagination.Render | src/components/ui/Pagination.tsx:50-111 | nothing exactly when there is at most one page; otherwise prev/next links exactly when `hasPrevPage`/`hasNextPage`, and one entry per window item, with the current page highlighted |
| Pagination.ExactlyOneHighlighted | src/components/ui/Pagination.tsx:75-92 | on an existing page exactly one entry is highlighted, the current one |
| Pagination.HighlightedEntry | src/components/ui/Pagination.tsx:75-92 | entry `i` of the bar is highlighted exactly when item `i` of the window is the current page |
| BlogCard.TagSegmentAsWritten | src/components/ui/BlogCard.tsx:40 | the card's tag segment is no longer than the tag, and each of its characters is `-` or a non-space character of the lower-cased tag |
| BlogCard.TagHrefAsWritten | src/components/ui/BlogCard.tsx:40 | the card's link is `/tags/` followed by that segment |
| BlogCard.TagSegmentWithoutSpace | src/components/ui/BlogCard.tsx:40 | a tag without white space is linked under its lower-cased self, every character kept |
| BlogCard.TagSegmentDashesSpaceRun | src/components/ui/BlogCard.tsx:40 | each maximal run of white space becomes one `-` at its place; with TagSegmentWithoutSpace this fixes the segment of every tag |
| BlogCard.AsWrittenLinkMissesTaggedPosts | src/components/ui/BlogCard.tsx:40 | for a tag holding a character other than a letter, digit, space or `-`, the card's link matches no post, while the tagged posts are found under the tag's slug |
| BlogCard.NextJsLinkFindsNothing | src/components/ui/BlogCard.tsx:40 | the card's link for the tag `Next.js` matches no post |
| BlogCard.TagHref | src/lib/blog.ts:103 | the corrected link is `/tags/` followed by the tag's slug |
| BlogCard.TagLinkListsPost | src/lib/blog.ts:115-120 | every post is found on the page of each of its corrected tag links |

## Left out

- Reading the posts directory and the post files (`fs.readdirSync`, `fs.readFileSync`) is left out as I/O. The listing is a parameter: a sequence of file names with their parsed front matter and markdown body.
- Front-matter parsing by `gray-matter` and markdown rendering by `remark` are library calls whose code is not part of this model. `getPostBySlug` is not modelled either; its own logic is only turning an exception into `null`.
- Front-matter fields are taken to be strings. YAML can produce a `Date` for an unquoted date, and then `<` compares time values; that case is not modelled. A missing title, date or other field (`undefined` in JavaScript) is not modelled. `tags` may be missing, and then it becomes `[]`.
- Blog.SortByDate: states only that the result is a permutation in which no date is `<` the next one. The comparator `a.date < b.date ? 1 : -1` returns -1 for equal dates, so the order of equal dates depends on the engine's sort algorithm and is not modelled.
- String `<` compares UTF-16 code units; the model compares Unicode scalar values. The two orders differ only when characters outside the Basic Multilingual Plane are involved.
- `toLowerCase` is modelled for ASCII letters only. Non-ASCII upper-case letters are left unchanged, whereas JavaScript lower-cases them. This affects `searchPosts` and `slugify` on such text.
- Blog.PaginatePosts: requires `postsPerPage >= 1`. Every caller passes 6. With 0 the JavaScript computes `Infinity` or `NaN` pages, and real numbers are not modelled. Pages are integers: `Number(...)` can also yield a fraction, and that is not modelled.
- Pagination.RequestedPage: parses only an optional `-` followed by decimal digits. `Number` also accepts surrounding white space, `+`, fractions, exponents and hexadecimal; the model maps all of those to page 1.
- Page numbers are exact integers in the model. In JavaScript they are doubles: past 2^53 `(page - 1) * postsPerPage` and `currentPage ± 1` round, and from 1e21 on `${n}` prints exponent form (`1e+21`), so `IntToDecimal` and the three links differ from the source there. That precision and formatting are not modelled.
- Pagination.PageParam: stands in for Next.js query-string parsing, for the links this component produces only. Percent-decoding and other query parameters are not modelled.
- Pagination.Render: models the view as data: the link targets, the entries and which entry is highlighted. CSS classes, icons and the disabled buttons' markup are left out.
- `Category.description` is never set by `getAllCategories`, so the record has no such field.
- BlogCard shows only the first three tags and a `+n` badge. Only the link target of a tag is modelled; the rest is markup. The post page `src/app/blog/[slug]/page.tsx` builds its tag links with the same expression, so `TagSegmentAsWritten` models both; the rest of that page is markup.
- The other pages and layout components (home page, about page, header, footer, hero, badge) are static markup and are not part of this model.

## Findings

| source | as written | input that shows it | evidently intended | confidence | as-written member | corrected member |
|---|---|---|---|---|---|---|
| src/components/ui/BlogCard.tsx:40 | the card links a tag to `/tags/` plus `tag.toLowerCase().replace(/\s+/g, '-')` | the tag `Next.js` is linked to `/tags/next.js`; `getPostsByTag('next.js')` matches no post, because no tag slugifies to a string containing `.` (the slug of `Next.js` is `nextjs`) | link to `/tags/` plus `slugify(tag)`, the slug that `getAllTags` reports and that `getPostsByTag` matches | not executed; the tag page is not part of this model, and it is taken to look posts up with `getPostsByTag` | BlogCard.AsWrittenLinkMissesTaggedPosts | BlogCard.TagLinkListsPost |
| src/app/blog/[slug]/page.tsx:112 | the post page links each of its tags, with the same expression as the card, to `/tags/` plus `tag.toLowerCase().replace(/\s+/g, '-')` | the tag `Next.js` is linked to `/tags/next.js`; `getPostsByTag('next.js')` matches no post, because no tag slugifies to a string containing `.` (the slug of `Next.js` is `nextjs`) | link to `/tags/` plus `slugify(tag)`, the slug that `getAllTags` reports and that `getPostsByTag` matches | not executed; the tag page is not part of this model, and it is taken to look posts up with `getPostsByTag` | BlogCard.AsWrittenLinkMissesTaggedPosts | BlogCard.TagLinkListsPost |
